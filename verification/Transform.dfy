/** The fixed-point cosine transforms of both programs and the zig-zag order between them. */
module Transform {
  import opened Words

  // ---- the tables of both programs

  type Cosine = x: int | 6400 <= x <= 32144 witness 6400
  type Bit = x: int | 0 <= x <= 1

  type Cosines = m: seq<seq<Cosine>> | |m| == 8 && forall x :: 0 <= x < 8 ==> |m[x]| == 8
    witness seq(8, _ => seq(8, _ => 6400))

  type Bits8 = m: seq<seq<Bit>> | |m| == 8 && forall x :: 0 <= x < 8 ==> |m[x]| == 8
    witness seq(8, _ => seq(8, _ => 0))

  /** The encoder's factors and signs, indexed by sample and frequency. */
  const C: Cosines := [
    [23168, 32144, 30272, 27248, 23168, 18208, 12544, 6400],
    [23168, 27248, 12544, 6400, 23168, 32144, 30272, 18208],
    [23168, 18208, 12544, 32144, 23168, 6400, 30272, 27248],
    [23168, 6400, 30272, 18208, 23168, 27248, 12544, 32144],
    [23168, 6400, 30272, 18208, 23168, 27248, 12544, 32144],
    [23168, 18208, 12544, 32144, 23168, 6400, 30272, 27248],
    [23168, 27248, 12544, 6400, 23168, 32144, 30272, 18208],
    [23168, 32144, 30272, 27248, 23168, 18208, 12544, 6400]
  ]

  const S: Bits8 := [
    [0, 0, 0, 0, 0, 0, 0, 0],
    [0, 0, 0, 1, 1, 1, 1, 1],
    [0, 0, 1, 1, 1, 0, 0, 0],
    [0, 0, 1, 1, 0, 0, 1, 1],
    [0, 1, 1, 0, 0, 1, 1, 0],
    [0, 1, 1, 0, 1, 1, 0, 1],
    [0, 1, 0, 0, 1, 0, 1, 0],
    [0, 1, 0, 1, 0, 1, 0, 1]
  ]

  /** The decoder's, indexed by frequency and sample. */
  const IC: Cosines := [
    [23168, 23168, 23168, 23168, 23168, 23168, 23168, 23168],
    [32144, 27248, 18208, 6400, 6400, 18208, 27248, 32144],
    [30272, 12544, 12544, 30272, 30272, 12544, 12544, 30272],
    [27248, 6400, 32144, 18208, 18208, 32144, 6400, 27248],
    [23168, 23168, 23168, 23168, 23168, 23168, 23168, 23168],
    [18208, 32144, 6400, 27248, 27248, 6400, 32144, 18208],
    [12544, 30272, 30272, 12544, 12544, 30272, 30272, 12544],
    [6400, 18208, 27248, 32144, 32144, 27248, 18208, 6400]
  ]

  const IS: Bits8 := [
    [0, 0, 0, 0, 0, 0, 0, 0],
    [0, 0, 0, 0, 1, 1, 1, 1],
    [0, 0, 1, 1, 1, 1, 0, 0],
    [0, 1, 1, 1, 0, 0, 0, 1],
    [0, 1, 1, 0, 0, 1, 1, 0],
    [0, 1, 0, 0, 1, 1, 0, 1],
    [0, 1, 0, 1, 1, 0, 1, 0],
    [0, 1, 0, 1, 0, 1, 0, 1]
  ]

  // ---- one pass over one line

  /** One product, in units of 2 half, rounded. */
  function Product(v: int, c: Cosine, half: nat): int
    requires half > 0
  {
    (v * c + half) / (2 * half)
  }

  /** The same with its sign. */
  function Term(v: int, c: Cosine, s: Bit, half: nat): int
    requires half > 0
  {
    if s == 1 then -Product(v, c, half) else Product(v, c, half)
  }

  /** Register u after the first n samples of a line. */
  function Sum(line: seq<int>, c: Cosines, s: Bits8, half: nat, u: nat, n: nat): int
    requires |line| == 8 && half > 0 && u < 8 && n <= 8
  {
    if n == 0 then 0 else Sum(line, c, s, half, u, n - 1) + Term(line[n - 1], c[n - 1][u], s[n - 1][u], half)
  }

  /** The final division by a power of two, rounded; `round` 1 leaves a register as it is. */
  function Scaled(v: int, round: nat): int
    requires round > 0
  {
    (v + round / 2) / round
  }

  /** A whole line; `round` is what the registers are divided by at the end. */
  function Line(line: seq<int>, c: Cosines, s: Bits8, half: nat, round: nat): (r: seq<int>)
    requires |line| == 8 && half > 0 && round > 0
    ensures |r| == 8 && forall u :: 0 <= u < 8 ==> r[u] == Scaled(Sum(line, c, s, half, u, 8), round)
  {
    seq(8, u requires 0 <= u < 8 => Scaled(Sum(line, c, s, half, u, 8), round))
  }

  // ---- 8 by 8 blocks

  type Grid = g: seq<seq<int>> | |g| == 8 && forall y :: 0 <= y < 8 ==> |g[y]| == 8
    witness seq(8, _ => seq(8, _ => 0))

  function Column(g: Grid, x: nat): (r: seq<int>)
    requires x < 8
    ensures |r| == 8 && forall y :: 0 <= y < 8 ==> r[y] == g[y][x]
  {
    seq(8, y requires 0 <= y < 8 => g[y][x])
  }

  function Rows(g: Grid, c: Cosines, s: Bits8, half: nat, round: nat): Grid
    requires half > 0 && round > 0
  {
    seq(8, y requires 0 <= y < 8 => Line(g[y], c, s, half, round))
  }

  function Columns(g: Grid, c: Cosines, s: Bits8, half: nat, round: nat): Grid
    requires half > 0 && round > 0
  {
    seq(8, y requires 0 <= y < 8 => seq(8, x requires 0 <= x < 8 => Line(Column(g, x), c, s, half, round)[y]))
  }

  /** The forward transform of samples around zero. */
  function Forward(g: Grid): Grid {
    Columns(Rows(g, C, S, 2048, 1), C, S, 131072, 4)
  }

  function Level(v: int): int {
    (if v < -128 then -128 else if v > 127 then 127 else v) + 128
  }

  function Levelled(g: Grid): Grid {
    seq(8, y requires 0 <= y < 8 => seq(8, x requires 0 <= x < 8 => Level(g[y][x])))
  }

  /** The inverse transform before its clamp. */
  function Unlevelled(g: Grid): Grid {
    Rows(Columns(g, IC, IS, 8192, 1), IC, IS, 16384, 8)
  }

  /** The inverse transform, and the clamp that makes its result bytes. */
  function Inverse(g: Grid): Grid {
    Levelled(Unlevelled(g))
  }

  ghost predicate Within(line: seq<int>, lo: int, hi: int) {
    forall x :: 0 <= x < |line| ==> lo <= line[x] <= hi
  }

  ghost predicate GridWithin(g: Grid, lo: int, hi: int) {
    forall y :: 0 <= y < 8 ==> Within(g[y], lo, hi)
  }

  // ---- the transforms as the programs compute them

  function Contents(block: array2<int>): (g: Grid)
    requires block.Length0 == block.Length1 == 8
    reads block
    ensures forall y, x :: 0 <= y < 8 && 0 <= x < 8 ==> g[y][x] == block[y, x]
  {
    seq(8, y requires 0 <= y < 8 reads block => seq(8, x requires 0 <= x < 8 reads block => block[y, x]))
  }

  lemma ProductFits(v: int, c: Cosine, half: nat)
    requires -16384 <= v <= 16384 && 2048 <= half <= 131072
    ensures -526647296 <= v * c <= 526647296
    ensures -0x2_0000 <= (v * c + half) / (2 * half) <= 0x2_0000
  {
    MulMonotonic(c, v, 16384);
    MulMonotonic(c, -16384, v);
    MulMonotonic(0x2_0000, 4096, 2 * half);
    QuotientBound(v * c + half, 2 * half, 0x2_0001);
    QuotientBound(v * c + half, 2 * half, -0x2_0000);
    assert 0x2_0001 * (2 * half) == 0x2_0000 * (2 * half) + 2 * half;
  }

  /** Multiply, round, and add up one line in the registers; 32 bits suffice. */
  method Accumulate(line: seq<int>, c: Cosines, s: Bits8, half: nat, reg: array<int>)
    requires |line| == 8 && Within(line, -16384, 16384) && 2048 <= half <= 131072 && reg.Length == 8
    modifies reg
    ensures forall u :: 0 <= u < 8 ==> reg[u] == Sum(line, c, s, half, u, 8)
    ensures forall u :: 0 <= u < 8 ==> -0x10_0000 <= reg[u] <= 0x10_0000
  {
    for x := 0 to 8
      invariant forall u :: 0 <= u < x ==> reg[u] == 0
    {
      reg[x] := 0;
    }
    for x := 0 to 8
      invariant forall u :: 0 <= u < 8 ==> reg[u] == Sum(line, c, s, half, u, x)
      invariant forall u :: 0 <= u < 8 ==> -0x2_0000 * x <= reg[u] <= 0x2_0000 * x
    {
      for u := 0 to 8
        invariant forall w :: 0 <= w < u ==> reg[w] == Sum(line, c, s, half, w, x + 1)
        invariant forall w :: 0 <= w < u ==> -0x2_0000 * (x + 1) <= reg[w] <= 0x2_0000 * (x + 1)
        invariant forall w :: u <= w < 8 ==> reg[w] == Sum(line, c, s, half, w, x)
        invariant forall w :: u <= w < 8 ==> -0x2_0000 * x <= reg[w] <= 0x2_0000 * x
      {
        ProductFits(line[x], c[x][u], half);
        var v: int32 := line[x] * c[x][u];
        v := v + half;
        v := v / (2 * half);
        if s[x][u] == 1 {
          v := -v;
        }
        var sum: int32 := reg[u] + v;
        reg[u] := sum;
      }
    }
  }

  lemma SameGrid(g: Grid, h: Grid)
    requires forall y, x :: 0 <= y < 8 && 0 <= x < 8 ==> g[y][x] == h[y][x]
    ensures g == h
  {
    forall y | 0 <= y < 8
      ensures g[y] == h[y]
    {
      assert |g[y]| == |h[y]|;
    }
  }

  /** The horizontal loop of a transform. */
  method RowsInPlace(block: array2<int>, c: Cosines, s: Bits8, half: nat, round: nat)
    requires block.Length0 == block.Length1 == 8 && 2048 <= half <= 131072 && 1 <= round <= 8
    requires GridWithin(Contents(block), -16384, 16384)
    modifies block
    ensures Contents(block) == Rows(old(Contents(block)), c, s, half, round)
  {
    hide Sum, Scaled;
    ghost var g := Contents(block);
    var reg := new int[8];
    for y := 0 to 8
      invariant forall i, x :: 0 <= i < y && 0 <= x < 8 ==> block[i, x] == Line(g[i], c, s, half, round)[x]
      invariant forall i, x :: y <= i < 8 && 0 <= x < 8 ==> block[i, x] == g[i][x]
    {
      var line := seq(8, x requires 0 <= x < 8 reads block => block[y, x]);
      assert line == g[y];
      assert Within(line, -16384, 16384);
      Accumulate(line, c, s, half, reg);
      for x := 0 to 8
        invariant forall w :: 0 <= w < 8 ==> reg[w] == Sum(line, c, s, half, w, 8)
        invariant forall w :: 0 <= w < x ==> block[y, w] == Line(line, c, s, half, round)[w]
        invariant forall i, w :: 0 <= i < y && 0 <= w < 8 ==> block[i, w] == Line(g[i], c, s, half, round)[w]
        invariant forall i, w :: y < i < 8 && 0 <= w < 8 ==> block[i, w] == g[i][w]
      {
        block[y, x] := Scaled(reg[x], round);
      }
    }
    SameGrid(Contents(block), Rows(g, c, s, half, round));
  }

  lemma ColumnsByElement(block: array2<int>, g: Grid, c: Cosines, s: Bits8, half: nat, round: nat)
    requires block.Length0 == block.Length1 == 8 && half > 0 && round > 0
    requires forall i, x :: 0 <= i < 8 && 0 <= x < 8 ==> block[x, i] == Line(Column(g, i), c, s, half, round)[x]
    ensures Contents(block) == Columns(g, c, s, half, round)
  {
    hide Line, Column;
    SameGrid(Contents(block), Columns(g, c, s, half, round));
  }

  lemma ColumnWithin(g: Grid, x: nat, lo: int, hi: int)
    requires x < 8 && GridWithin(g, lo, hi)
    ensures Within(Column(g, x), lo, hi)
  {
    forall y | 0 <= y < 8
      ensures lo <= Column(g, x)[y] <= hi
    {
      assert Within(g[y], lo, hi);
    }
  }

  /** The vertical loop of a transform. */
  method ColumnsInPlace(block: array2<int>, c: Cosines, s: Bits8, half: nat, round: nat)
    requires block.Length0 == block.Length1 == 8 && 2048 <= half <= 131072 && 1 <= round <= 8
    requires GridWithin(Contents(block), -16384, 16384)
    modifies block
    ensures Contents(block) == Columns(old(Contents(block)), c, s, half, round)
  {
    hide Sum, Columns, Scaled;
    ghost var g := Contents(block);
    var reg := new int[8];
    for y := 0 to 8
      invariant forall i, x :: 0 <= i < y && 0 <= x < 8 ==> block[x, i] == Line(Column(g, i), c, s, half, round)[x]
      invariant forall i, x :: y <= i < 8 && 0 <= x < 8 ==> block[x, i] == g[x][i]
    {
      var line := seq(8, x requires 0 <= x < 8 reads block => block[x, y]);
      assert line == Column(g, y);
      ColumnWithin(g, y, -16384, 16384);
      Accumulate(line, c, s, half, reg);
      for x := 0 to 8
        invariant forall w :: 0 <= w < 8 ==> reg[w] == Sum(line, c, s, half, w, 8)
        invariant forall w :: 0 <= w < x ==> block[w, y] == Line(line, c, s, half, round)[w]
        invariant forall i, w :: 0 <= i < y && 0 <= w < 8 ==> block[w, i] == Line(Column(g, i), c, s, half, round)[w]
        invariant forall i, w :: y < i < 8 && 0 <= w < 8 ==> block[w, i] == g[w][i]
      {
        block[x, y] := Scaled(reg[x], round);
      }
    }
    ColumnsByElement(block, g, c, s, half, round);
  }

  /** The largest register a line between lo and hi can lead to: hi where the sign is plus and
      lo where it is minus. Exchanging lo and hi gives the smallest. */
  function Extreme(lo: int, hi: int, c: Cosines, s: Bits8, half: nat, u: nat, n: nat): int
    requires half > 0 && u < 8 && n <= 8
  {
    if n == 0 then 0
    else
      Extreme(lo, hi, c, s, half, u, n - 1) +
      Term(if s[n - 1][u] == 1 then lo else hi, c[n - 1][u], s[n - 1][u], half)
  }

  predicate StaysAbove(lo: int, hi: int, c: Cosines, s: Bits8, half: nat, round: nat, low: int, u: nat)
    requires half > 0 && round > 0 && u < 8
  {
    low <= Scaled(Extreme(hi, lo, c, s, half, u, 8), round)
  }

  predicate StaysBelow(lo: int, hi: int, c: Cosines, s: Bits8, half: nat, round: nat, high: int, u: nat)
    requires half > 0 && round > 0 && u < 8
  {
    Scaled(Extreme(lo, hi, c, s, half, u, 8), round) <= high
  }

  /** Register u of a line between lo and hi ends up between low and high. */
  predicate MapsTo(lo: int, hi: int, c: Cosines, s: Bits8, half: nat, round: nat, low: int, high: int, u: nat)
    requires half > 0 && round > 0 && u < 8
  {
    StaysAbove(lo, hi, c, s, half, round, low, u) && StaysBelow(lo, hi, c, s, half, round, high, u)
  }

  ghost predicate Maps(lo: int, hi: int, c: Cosines, s: Bits8, half: nat, round: nat, low: int, high: int)
    requires half > 0 && round > 0
  {
    forall u :: 0 <= u < 8 ==> MapsTo(lo, hi, c, s, half, round, low, high, u)
  }

  lemma TermMonotonic(v: int, w: int, c: Cosine, half: nat)
    requires v <= w && half > 0
    ensures (v * c + half) / (2 * half) <= (w * c + half) / (2 * half)
  {
    MulMonotonic(c, v, w);
    var q := (v * c + half) / (2 * half);
    QuotientBound(v * c + half, 2 * half, q);
    QuotientBound(w * c + half, 2 * half, q);
  }

  lemma {:induction false} SumRange(line: seq<int>, lo: int, hi: int, c: Cosines, s: Bits8, half: nat, u: nat, n: nat)
    requires |line| == 8 && Within(line, lo, hi) && half > 0 && u < 8 && n <= 8
    ensures Extreme(hi, lo, c, s, half, u, n) <= Sum(line, c, s, half, u, n) <= Extreme(lo, hi, c, s, half, u, n)
  {
    if n == 0 {
    } else {
      SumRange(line, lo, hi, c, s, half, u, n - 1);
      TermMonotonic(lo, line[n - 1], c[n - 1][u], half);
      TermMonotonic(line[n - 1], hi, c[n - 1][u], half);
    }
  }

  lemma RoundMonotonic(a: int, b: int, round: nat)
    requires a <= b && round > 0
    ensures Scaled(a, round) <= Scaled(b, round)
  {
    var q := (a + round / 2) / round;
    QuotientBound(a + round / 2, round, q);
    QuotientBound(b + round / 2, round, q);
  }

  lemma RegisterRange(line: seq<int>, lo: int, hi: int, c: Cosines, s: Bits8, half: nat, round: nat, low: int,
                      high: int, u: nat)
    requires |line| == 8 && Within(line, lo, hi) && half > 0 && round > 0 && u < 8
    requires MapsTo(lo, hi, c, s, half, round, low, high, u)
    ensures low <= Scaled(Sum(line, c, s, half, u, 8), round) <= high
  {
    hide Sum, Extreme, Scaled;
    SumRange(line, lo, hi, c, s, half, u, 8);
    RoundMonotonic(Extreme(hi, lo, c, s, half, u, 8), Sum(line, c, s, half, u, 8), round);
    RoundMonotonic(Sum(line, c, s, half, u, 8), Extreme(lo, hi, c, s, half, u, 8), round);
  }

  lemma LineRange(line: seq<int>, lo: int, hi: int, c: Cosines, s: Bits8, half: nat, round: nat, low: int, high: int)
    requires |line| == 8 && Within(line, lo, hi) && half > 0 && round > 0
    requires Maps(lo, hi, c, s, half, round, low, high)
    ensures Within(Line(line, c, s, half, round), low, high)
  {
    hide Sum, Extreme, Scaled, Line;
    forall u | 0 <= u < 8
      ensures low <= Line(line, c, s, half, round)[u] <= high
    {
      assert MapsTo(lo, hi, c, s, half, round, low, high, u);
      RegisterRange(line, lo, hi, c, s, half, round, low, high, u);
    }
  }

  lemma RowsRange(g: Grid, lo: int, hi: int, c: Cosines, s: Bits8, half: nat, round: nat, low: int, high: int)
    requires GridWithin(g, lo, hi) && half > 0 && round > 0 && Maps(lo, hi, c, s, half, round, low, high)
    ensures GridWithin(Rows(g, c, s, half, round), low, high)
  {
    hide Line, Maps;
    forall y | 0 <= y < 8
      ensures Within(Rows(g, c, s, half, round)[y], low, high)
    {
      LineRange(g[y], lo, hi, c, s, half, round, low, high);
    }
  }

  lemma ColumnsWithin(g: Grid, c: Cosines, s: Bits8, half: nat, round: nat, low: int, high: int)
    requires half > 0 && round > 0
    requires forall x :: 0 <= x < 8 ==> Within(Line(Column(g, x), c, s, half, round), low, high)
    ensures GridWithin(Columns(g, c, s, half, round), low, high)
  {
  }

  lemma ColumnsRange(g: Grid, lo: int, hi: int, c: Cosines, s: Bits8, half: nat, round: nat, low: int, high: int)
    requires GridWithin(g, lo, hi) && half > 0 && round > 0 && Maps(lo, hi, c, s, half, round, low, high)
    ensures GridWithin(Columns(g, c, s, half, round), low, high)
  {
    hide Line, Maps, GridWithin;
    forall x | 0 <= x < 8
      ensures Within(Line(Column(g, x), c, s, half, round), low, high)
    {
      ColumnWithin(g, x, lo, hi);
      LineRange(Column(g, x), lo, hi, c, s, half, round, low, high);
    }
    ColumnsWithin(g, c, s, half, round, low, high);
  }

  lemma Wider(g: Grid, lo: int, hi: int)
    requires GridWithin(g, lo, hi) && -16384 <= lo && hi <= 16384
    ensures GridWithin(g, -16384, 16384)
  {
    forall y | 0 <= y < 8
      ensures Within(g[y], -16384, 16384)
    {
      assert Within(g[y], lo, hi);
    }
  }

  lemma First0()
    ensures StaysAbove(-128, 127, C, S, 2048, 1, -5792, 0)
    ensures StaysBelow(-128, 127, C, S, 2048, 1, 5768, 0)
  {
  }

  lemma First1()
    ensures StaysAbove(-128, 127, C, S, 2048, 1, -5768, 1)
    ensures StaysBelow(-128, 127, C, S, 2048, 1, 5768, 1)
  {
  }

  lemma First2()
    ensures StaysAbove(-128, 127, C, S, 2048, 1, -5768, 2)
    ensures StaysBelow(-128, 127, C, S, 2048, 1, 5768, 2)
  {
  }

  lemma First3()
    ensures StaysAbove(-128, 127, C, S, 2048, 1, -5768, 3)
    ensures StaysBelow(-128, 127, C, S, 2048, 1, 5768, 3)
  {
  }

  lemma First4()
    ensures StaysAbove(-128, 127, C, S, 2048, 1, -5768, 4)
    ensures StaysBelow(-128, 127, C, S, 2048, 1, 5768, 4)
  {
  }

  lemma First5()
    ensures StaysAbove(-128, 127, C, S, 2048, 1, -5768, 5)
    ensures StaysBelow(-128, 127, C, S, 2048, 1, 5768, 5)
  {
  }

  lemma First6()
    ensures StaysAbove(-128, 127, C, S, 2048, 1, -5768, 6)
    ensures StaysBelow(-128, 127, C, S, 2048, 1, 5768, 6)
  {
  }

  lemma First7()
    ensures StaysAbove(-128, 127, C, S, 2048, 1, -5768, 7)
    ensures StaysBelow(-128, 127, C, S, 2048, 1, 5768, 7)
  {
  }

  /** All registers but the first stay closer to zero on the dark side. */
  lemma FirstPassAc(u: nat)
    requires 1 <= u < 8
    ensures MapsTo(-128, 127, C, S, 2048, 1, -5768, 5768, u)
  {
    hide StaysAbove, StaysBelow;
    First1();
    First2();
    First3();
    First4();
    First5();
    First6();
    First7();
  }

  lemma MapsWider(lo: int, hi: int, c: Cosines, s: Bits8, half: nat, round: nat, low: int, high: int,
                  lower: int, higher: int, u: nat)
    requires half > 0 && round > 0 && u < 8 && lower <= low && high <= higher
    requires MapsTo(lo, hi, c, s, half, round, low, high, u)
    ensures MapsTo(lo, hi, c, s, half, round, lower, higher, u)
  {
    hide Scaled, Extreme;
  }

  lemma FirstPass()
    ensures Maps(-128, 127, C, S, 2048, 1, -5792, 5768)
  {
    hide StaysAbove, StaysBelow;
    forall u: nat | u < 8
      ensures MapsTo(-128, 127, C, S, 2048, 1, -5792, 5768, u)
    {
      if u == 0 {
        First0();
      } else {
        FirstPassAc(u);
        MapsWider(-128, 127, C, S, 2048, 1, -5768, 5768, -5792, 5768, u);
      }
    }
  }

  lemma Second0()
    ensures StaysAbove(-5792, 5768, C, S, 131072, 4, -1024, 0)
    ensures StaysBelow(-5792, 5768, C, S, 131072, 4, 1023, 0)
  {
  }

  lemma Second1()
    ensures StaysAbove(-5792, 5768, C, S, 131072, 4, -1022, 1)
    ensures StaysBelow(-5792, 5768, C, S, 131072, 4, 1022, 1)
  {
  }

  lemma Second2()
    ensures StaysAbove(-5792, 5768, C, S, 131072, 4, -1022, 2)
    ensures StaysBelow(-5792, 5768, C, S, 131072, 4, 1022, 2)
  {
  }

  lemma Second3()
    ensures StaysAbove(-5792, 5768, C, S, 131072, 4, -1022, 3)
    ensures StaysBelow(-5792, 5768, C, S, 131072, 4, 1022, 3)
  {
  }

  lemma Second4()
    ensures StaysAbove(-5792, 5768, C, S, 131072, 4, -1022, 4)
    ensures StaysBelow(-5792, 5768, C, S, 131072, 4, 1022, 4)
  {
  }

  lemma Second5()
    ensures StaysAbove(-5792, 5768, C, S, 131072, 4, -1022, 5)
    ensures StaysBelow(-5792, 5768, C, S, 131072, 4, 1022, 5)
  {
  }

  lemma Second6()
    ensures StaysAbove(-5792, 5768, C, S, 131072, 4, -1022, 6)
    ensures StaysBelow(-5792, 5768, C, S, 131072, 4, 1022, 6)
  {
  }

  lemma Second7()
    ensures StaysAbove(-5792, 5768, C, S, 131072, 4, -1022, 7)
    ensures StaysBelow(-5792, 5768, C, S, 131072, 4, 1022, 7)
  {
  }

  lemma SecondPassAc(v: nat)
    requires 1 <= v < 8
    ensures MapsTo(-5792, 5768, C, S, 131072, 4, -1022, 1022, v)
  {
    hide StaysAbove, StaysBelow;
    Second1();
    Second2();
    Second3();
    Second4();
    Second5();
    Second6();
    Second7();
  }

  lemma SecondPass()
    ensures Maps(-5792, 5768, C, S, 131072, 4, -1024, 1023)
  {
    hide StaysAbove, StaysBelow;
    forall v: nat | v < 8
      ensures MapsTo(-5792, 5768, C, S, 131072, 4, -1024, 1023, v)
    {
      if v == 0 {
        Second0();
      } else {
        SecondPassAc(v);
        MapsWider(-5792, 5768, C, S, 131072, 4, -1022, 1022, -1024, 1023, v);
      }
    }
  }

  /** Samples around zero give coefficients from -1024 to 1023, and nothing in between leaves
      the range the accumulators are made for. */
  lemma ForwardRange(g: Grid)
    requires GridWithin(g, -128, 127)
    ensures GridWithin(g, -16384, 16384)
    ensures GridWithin(Rows(g, C, S, 2048, 1), -16384, 16384)
    ensures GridWithin(Forward(g), -1024, 1023)
  {
    hide Rows, Columns, Maps;
    FirstPass();
    SecondPass();
    RowsRange(g, -128, 127, C, S, 2048, 1, -5792, 5768);
    ColumnsRange(Rows(g, C, S, 2048, 1), -5792, 5768, C, S, 131072, 4, -1024, 1023);
    Wider(g, -128, 127);
    Wider(Rows(g, C, S, 2048, 1), -5792, 5768);
  }

  /** The forward transform. */
  method Dct(block: array2<int>)
    requires block.Length0 == block.Length1 == 8 && GridWithin(Contents(block), -128, 127)
    modifies block
    ensures Contents(block) == Forward(old(Contents(block)))
    ensures GridWithin(Contents(block), -1024, 1023)
  {
    hide Line, Contents, Rows, Columns, Within, GridWithin;
    ForwardRange(Contents(block));
    RowsInPlace(block, C, S, 2048, 1);
    ColumnsInPlace(block, C, S, 131072, 4);
  }

  lemma SumStep(line: seq<int>, c: Cosines, s: Bits8, half: nat, u: nat, n: nat)
    requires |line| == 8 && half > 0 && u < 8 && 0 < n <= 8
    ensures Sum(line, c, s, half, u, n) ==
      Sum(line, c, s, half, u, n - 1) + Term(line[n - 1], c[n - 1][u], s[n - 1][u], half)
  {
  }

  lemma TermSize(v: int, c: Cosine, s: Bit)
    requires -1023 <= v <= 1023
    ensures -2008 <= Term(v, c, s, 8192) <= 2008
  {
    MulMonotonic(c, v, 1023);
    MulMonotonic(c, -1023, v);
  }

  lemma {:induction false} InverseSumRange(line: seq<int>, u: nat, n: nat)
    requires |line| == 8 && Within(line, -1023, 1023) && u < 8 && n <= 8
    ensures -2008 * n <= Sum(line, IC, IS, 8192, u, n) <= 2008 * n
  {
    if n == 0 {
    } else {
      hide IC, IS;
      InverseSumRange(line, u, n - 1);
      hide Sum, Term;
      TermSize(line[n - 1], IC[n - 1][u], IS[n - 1][u]);
      SumStep(line, IC, IS, 8192, u, n);
    }
  }

  lemma InverseLineRange(line: seq<int>)
    requires |line| == 8 && Within(line, -1023, 1023)
    ensures Within(Line(line, IC, IS, 8192, 1), -16384, 16384)
  {
    hide Sum;
    forall u | 0 <= u < 8
      ensures -16384 <= Line(line, IC, IS, 8192, 1)[u] <= 16384
    {
      InverseSumRange(line, u, 8);
    }
  }

  /** After its first pass the inverse transform is still far from the 32-bit limits. */
  lemma InverseRange(g: Grid)
    requires GridWithin(g, -1023, 1023)
    ensures GridWithin(g, -16384, 16384)
    ensures GridWithin(Columns(g, IC, IS, 8192, 1), -16384, 16384)
  {
    hide Columns, GridWithin;
    forall x | 0 <= x < 8
      ensures Within(Line(Column(g, x), IC, IS, 8192, 1), -16384, 16384)
    {
      ColumnWithin(g, x, -1023, 1023);
      InverseLineRange(Column(g, x));
    }
    ColumnsWithin(g, IC, IS, 8192, 1, -16384, 16384);
    Wider(g, -1023, 1023);
  }

  method InverseStages(block: array2<int>)
    requires block.Length0 == block.Length1 == 8 && GridWithin(Contents(block), -1023, 1023)
    modifies block
    ensures Contents(block) == Rows(Columns(old(Contents(block)), IC, IS, 8192, 1), IC, IS, 16384, 8)
  {
    hide Line, Contents, Rows, Columns, Within, GridWithin;
    InverseRange(Contents(block));
    ColumnsInPlace(block, IC, IS, 8192, 1);
    RowsInPlace(block, IC, IS, 16384, 8);
  }

  /** Clamping and the level shift at the end of the inverse transform. */
  method LevelInPlace(block: array2<int>)
    requires block.Length0 == block.Length1 == 8
    modifies block
    ensures Contents(block) == Levelled(old(Contents(block)))
  {
    ghost var g := Contents(block);
    for y := 0 to 8
      invariant forall i, x :: 0 <= i < y && 0 <= x < 8 ==> block[x, i] == Level(g[x][i])
      invariant forall i, x :: y <= i < 8 && 0 <= x < 8 ==> block[x, i] == g[x][i]
    {
      for x := 0 to 8
        invariant forall w :: 0 <= w < x ==> block[w, y] == Level(g[w][y])
        invariant forall w :: x <= w < 8 ==> block[w, y] == g[w][y]
        invariant forall i, w :: 0 <= i < y && 0 <= w < 8 ==> block[w, i] == Level(g[w][i])
        invariant forall i, w :: y < i < 8 && 0 <= w < 8 ==> block[w, i] == g[w][i]
      {
        var v := block[x, y];
        if v < -128 {
          v := -128;
        } else if v > 127 {
          v := 127;
        }
        v := v + 128;
        block[x, y] := v;
      }
    }
    SameGrid(Contents(block), Levelled(g));
  }

  lemma LevelledRange(g: Grid)
    ensures GridWithin(Levelled(g), 0, 255)
  {
  }

  function Distance(a: int, b: int): nat {
    if a < b then b - a else a - b
  }

  /** No byte is nearer to v than b. */
  ghost predicate IsNearestByte(b: int, v: int) {
    0 <= b < 256 && forall w :: 0 <= w < 256 ==> Distance(b, v) <= Distance(w, v)
  }

  lemma LevelIsNearest(v: int)
    ensures IsNearestByte(Level(v), v + 128)
  {
  }

  lemma LevelledIsNearest(g: Grid)
    ensures forall y, x :: 0 <= y < 8 && 0 <= x < 8 ==> IsNearestByte(Levelled(g)[y][x], g[y][x] + 128)
  {
    forall y, x | 0 <= y < 8 && 0 <= x < 8
      ensures IsNearestByte(Levelled(g)[y][x], g[y][x] + 128)
    {
      LevelIsNearest(g[y][x]);
    }
  }

  /** A product is divided by a power of two and rounded to the nearest integer, ties upward... */
  lemma ProductRounds(v: int, c: Cosine, half: nat)
    requires half > 0
    ensures (2 * Product(v, c, half) - 1) * half <= v * c < (2 * Product(v, c, half) + 1) * half
  {
    var n := Product(v, c, half);
    QuotientBound(v * c + half, 2 * half, n);
    QuotientBound(v * c + half, 2 * half, n + 1);
    assert (2 * n - 1) * half == n * (2 * half) - half;
    assert (2 * n + 1) * half == (n + 1) * (2 * half) - half;
  }

  /** ... and so is a register. */
  lemma ScaledRounds(v: int, half: nat)
    requires half > 0
    ensures (2 * Scaled(v, 2 * half) - 1) * half <= v < (2 * Scaled(v, 2 * half) + 1) * half
    ensures Scaled(v, 1) == v
  {
    var n := Scaled(v, 2 * half);
    QuotientBound(v + half, 2 * half, n);
    QuotientBound(v + half, 2 * half, n + 1);
    assert (2 * n - 1) * half == n * (2 * half) - half;
    assert (2 * n + 1) * half == (n + 1) * (2 * half) - half;
  }

  /** The inverse transform. */
  method Idct(block: array2<int>)
    requires block.Length0 == block.Length1 == 8 && GridWithin(Contents(block), -1023, 1023)
    modifies block
    ensures Contents(block) == Inverse(old(Contents(block)))
    ensures GridWithin(Contents(block), 0, 255)
    ensures forall y, x :: 0 <= y < 8 && 0 <= x < 8 ==>
      IsNearestByte(Contents(block)[y][x], Unlevelled(old(Contents(block)))[y][x] + 128)
  {
    hide Level, IsNearestByte;
    ghost var g := Contents(block);
    InverseRange(g);
    InverseStages(block);
    LevelInPlace(block);
    LevelledRange(Unlevelled(g));
    LevelledIsNearest(Unlevelled(g));
  }

  // ---- ranges

  lemma Second0Ac()
    ensures StaysAbove(-5768, 5768, C, S, 131072, 4, -1022, 0)
    ensures StaysBelow(-5768, 5768, C, S, 131072, 4, 1022, 0)
  {
  }

  /** The first register of a column that is not the first. */
  lemma SecondPassDc()
    ensures MapsTo(-5768, 5768, C, S, 131072, 4, -1022, 1022, 0)
  {
    hide StaysAbove, StaysBelow;
    Second0Ac();
  }

  /** No coefficient but the first reaches the ends of the range. */
  lemma AcRange(g: Grid, v: nat, u: nat)
    requires GridWithin(g, -128, 127) && v < 8 && u < 8 && (v > 0 || u > 0)
    ensures -1022 <= Forward(g)[v][u] <= 1022
  {
    hide Sum, Extreme, Scaled, MapsTo, Maps;
    var r := Rows(g, C, S, 2048, 1);
    if v > 0 {
      FirstPass();
      RowsRange(g, -128, 127, C, S, 2048, 1, -5792, 5768);
      ColumnWithin(r, u, -5792, 5768);
      SecondPassAc(v);
      RegisterRange(Column(r, u), -5792, 5768, C, S, 131072, 4, -1022, 1022, v);
    } else {
      forall y | 0 <= y < 8
        ensures -5768 <= r[y][u] <= 5768
      {
        FirstPassAc(u);
        assert Within(g[y], -128, 127);
        RegisterRange(g[y], -128, 127, C, S, 2048, 1, -5768, 5768, u);
      }
      SecondPassDc();
      RegisterRange(Column(r, u), -5768, 5768, C, S, 131072, 4, -1022, 1022, 0);
    }
  }
}
