/** The zig-zag order, as T.81 draws it and as both programs index it. */
module ZigZag {
  import opened Transform

  datatype Cell = Cell(row: int, col: int) {
    predicate InBlock() {
      0 <= row < 8 && 0 <= col < 8
    }

    /** One step along the path of Figure A.6: up and to the right on even diagonals, down and
        to the left on odd ones, along the edge where that would leave the block. */
    function Next(): (c: Cell)
      requires InBlock() && this != Cell(7, 7)
      ensures c.InBlock()
    {
      if (row + col) % 2 == 0 then
        if col == 7 then Cell(row + 1, col) else if row == 0 then Cell(row, col + 1) else Cell(row - 1, col + 1)
      else
        if row == 7 then Cell(row, col + 1) else if col == 0 then Cell(row + 1, col) else Cell(row + 1, col - 1)
    }

    /** One step back. */
    function Previous(): (c: Cell)
      requires InBlock() && this != Cell(0, 0)
      ensures c.InBlock() && c != Cell(7, 7) && c.Next() == this
    {
      if (row + col) % 2 == 0 then
        if row == 7 then Cell(row, col - 1) else if col == 0 then Cell(row - 1, col) else Cell(row + 1, col - 1)
      else
        if row == 0 then Cell(row, col - 1) else if col == 7 then Cell(row - 1, col) else Cell(row - 1, col + 1)
    }
  }

  const ZZS: seq<seq<nat>> := [
    [0, 1, 5, 6, 14, 15, 27, 28],
    [2, 4, 7, 13, 16, 26, 29, 42],
    [3, 8, 12, 17, 25, 30, 41, 43],
    [9, 11, 18, 24, 31, 40, 44, 53],
    [10, 19, 23, 32, 39, 45, 52, 54],
    [20, 22, 33, 38, 46, 51, 55, 60],
    [21, 34, 37, 47, 50, 56, 59, 61],
    [35, 36, 48, 49, 57, 58, 62, 63]
  ]

  function Diagonal(d: nat): (n: nat)
    requires d < 15
    ensures n >= 1
  {
    if d < 8 then d + 1 else 15 - d
  }

  /** How many cells lie on the diagonals before diagonal d. */
  function Before(d: nat): nat
    requires d <= 15
  {
    if d == 0 then 0 else Before(d - 1) + Diagonal(d - 1)
  }

  lemma {:induction false} BeforeMonotonic(d: nat, e: nat)
    requires d <= e <= 15
    ensures Before(d) <= Before(e)
    decreases e - d
  {
    if d == e {
    } else {
      BeforeMonotonic(d, e - 1);
    }
  }

  lemma BeforeNext(d: nat)
    requires d < 15
    ensures Before(d + 1) == Before(d) + Diagonal(d)
  {
  }

  lemma BeforeValues()
    ensures Before(0) == 0 && Before(1) == 1 && Before(2) == 3 && Before(3) == 6 && Before(4) == 10
    ensures Before(5) == 15 && Before(6) == 21 && Before(7) == 28 && Before(8) == 36 && Before(9) == 43
    ensures Before(10) == 49 && Before(11) == 54 && Before(12) == 58 && Before(13) == 61 && Before(14) == 63
    ensures Before(15) == 64
  {
    assert Before(0) == 0;
    hide Before;
    forall d: nat | d < 15
      ensures Before(d + 1) == Before(d) + Diagonal(d)
    {
      BeforeNext(d);
    }
  }

  /** The number of a cell: the diagonals before its own, and where it is on that one. */
  function Rank(c: Cell): (k: nat)
    requires c.InBlock()
    ensures k < 64
  {
    var d := c.row + c.col;
    BeforeValues();
    BeforeMonotonic(d + 1, 15);
    Before(d) + if d % 2 == 0 then (if d <= 7 then c.col else 7 - c.row) else (if d <= 7 then c.row else 7 - c.col)
  }

  lemma RankOfEven(c: Cell)
    requires c.InBlock() && c != Cell(7, 7) && (c.row + c.col) % 2 == 0
    ensures var d := c.row + c.col;
      Rank(c.Next()) == Rank(c) + 1 + if c.Next().row + c.Next().col ==
        d then 0 else Before(d + 1) - Before(d) - Diagonal(d)
  {
    hide Before;
  }

  lemma RankOfOdd(c: Cell)
    requires c.InBlock() && (c.row + c.col) % 2 == 1
    ensures var d := c.row + c.col;
      Rank(c.Next()) == Rank(c) + 1 + if c.Next().row + c.Next().col ==
        d then 0 else Before(d + 1) - Before(d) - Diagonal(d)
  {
    hide Before;
  }

  /** The path visits the cells in the order of their numbers. */
  lemma NextRank(c: Cell)
    requires c.InBlock() && c != Cell(7, 7)
    ensures Rank(c.Next()) == Rank(c) + 1
  {
    hide Before;
    BeforeNext(c.row + c.col);
    if (c.row + c.col) % 2 == 0 {
      RankOfEven(c);
    } else {
      RankOfOdd(c);
    }
  }

  lemma Corners()
    ensures Rank(Cell(0, 0)) == 0 && Rank(Cell(7, 7)) == 63
  {
    BeforeValues();
  }

  /** Cell number k of the path. */
  function Path(k: nat): (c: Cell)
    requires k < 64
    ensures c.InBlock() && Rank(c) == k
  {
    Corners();
    if k == 0 then Cell(0, 0)
    else
      NextRank(Path(k - 1));
      Path(k - 1).Next()
  }

  /** Every cell is on the path, at the place its number says. */
  lemma {:induction false} PathReaches(c: Cell)
    requires c.InBlock()
    ensures Path(Rank(c)) == c
    decreases Rank(c)
  {
    hide Rank;
    Corners();
    if c == Cell(0, 0) {
    } else {
      NextRank(c.Previous());
      PathReaches(c.Previous());
    }
  }

  /** The programs' table holds the number of every cell of a row, from column col on. */
  predicate Ranked(row: nat, col: nat)
    requires row < 8 && col <= 8
    decreases 8 - col
  {
    col < 8 ==> ZZS[row][col] == Rank(Cell(row, col)) && Ranked(row, col + 1)
  }

  lemma Row0()
    ensures Ranked(0, 0)
  {
    hide Before;
    BeforeValues();
  }

  lemma Row1()
    ensures Ranked(1, 0)
  {
    hide Before;
    BeforeValues();
  }

  lemma Rows2And3()
    ensures Ranked(2, 0) && Ranked(3, 0)
  {
    hide Before;
    BeforeValues();
  }

  lemma Rows4And5()
    ensures Ranked(4, 0) && Ranked(5, 0)
  {
    hide Before;
    BeforeValues();
  }

  lemma Rows6And7()
    ensures Ranked(6, 0) && Ranked(7, 0)
  {
    hide Before;
    BeforeValues();
  }

  lemma {:induction false} RankedAt(row: nat, col: nat, from: nat)
    requires row < 8 && from <= col < 8 && Ranked(row, from)
    ensures ZZS[row][col] == Rank(Cell(row, col))
    decreases col - from
  {
    hide Rank;
    if from == col {
    } else {
      RankedAt(row, col, from + 1);
    }
  }

  /** The programs' table is the zig-zag order of T.81. */
  lemma TableIsZigZag(row: nat, col: nat)
    requires row < 8 && col < 8
    ensures |ZZS| == 8 && |ZZS[row]| == 8 && ZZS[row][col] == Rank(Cell(row, col))
    ensures Path(ZZS[row][col]) == Cell(row, col)
  {
    hide Ranked, Rank, Path;
    Row0();
    Row1();
    Rows2And3();
    Rows4And5();
    Rows6And7();
    RankedAt(row, col, 0);
    PathReaches(Cell(row, col));
  }

  // ---- reordering

  /** The coefficients along the path. */
  function Scanned(g: Grid): (zz: seq<int>)
    ensures |zz| == 64
  {
    seq(64, k requires 0 <= k < 64 => g[Path(k).row][Path(k).col])
  }

  /** The block whose cells are numbered along the path. */
  function Placed(zz: seq<int>): Grid
    requires |zz| == 64
  {
    seq(8, y requires 0 <= y < 8 => seq(8, x requires 0 <= x < 8 => zz[Rank(Cell(y, x))]))
  }

  lemma PlacedScanned(g: Grid)
    ensures Placed(Scanned(g)) == g
  {
    forall y, x | 0 <= y < 8 && 0 <= x < 8
      ensures Placed(Scanned(g))[y][x] == g[y][x]
    {
      PathReaches(Cell(y, x));
    }
    SameGrid(Placed(Scanned(g)), g);
  }

  /** The encoder's zig-zag step. */
  method Scan(block: array2<int>, zz: array<int>)
    requires block.Length0 == block.Length1 == 8 && zz.Length == 64
    modifies zz
    ensures zz[..] == Scanned(Contents(block))
  {
    hide Rank, Path;
    for i := 0 to 8
      invariant forall y, x :: 0 <= y < i && 0 <= x < 8 ==> zz[Rank(Cell(y, x))] == block[y, x]
    {
      for j := 0 to 8
        invariant forall y, x :: 0 <= y < i && 0 <= x < 8 ==> zz[Rank(Cell(y, x))] == block[y, x]
        invariant forall x :: 0 <= x < j ==> zz[Rank(Cell(i, x))] == block[i, x]
      {
        forall y, x | 0 <= y < 8 && 0 <= x < 8 && Rank(Cell(y, x)) == Rank(Cell(i, j))
          ensures y == i && x == j
        {
          PathReaches(Cell(y, x));
          PathReaches(Cell(i, j));
        }
        TableIsZigZag(i, j);
        zz[ZZS[i][j]] := block[i, j];
      }
    }
    forall k | 0 <= k < 64
      ensures zz[k] == Scanned(Contents(block))[k]
    {
      assert Rank(Cell(Path(k).row, Path(k).col)) == k;
    }
  }

  /** The decoder's zig-zag step. */
  method Place(zz: array<int>, block: array2<int>)
    requires block.Length0 == block.Length1 == 8 && zz.Length == 64
    modifies block
    ensures Contents(block) == Placed(zz[..])
  {
    hide Rank, Path;
    for i := 0 to 8
      invariant forall y, x :: 0 <= y < i && 0 <= x < 8 ==> block[y, x] == zz[Rank(Cell(y, x))]
    {
      for j := 0 to 8
        invariant forall y, x :: 0 <= y < i && 0 <= x < 8 ==> block[y, x] == zz[Rank(Cell(y, x))]
        invariant forall x :: 0 <= x < j ==> block[i, x] == zz[Rank(Cell(i, x))]
      {
        TableIsZigZag(i, j);
        block[i, j] := zz[ZZS[i][j]];
      }
    }
    SameGrid(Contents(block), Placed(zz[..]));
  }
}
