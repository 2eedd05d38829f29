/** What the transforms do to the lines and blocks that every image has most of: flat ones. */
module FlatBlocks {
  import opened Words
  import opened Transform

  function FlatLine(a: int): (line: seq<int>)
    ensures |line| == 8 && forall x :: 0 <= x < 8 ==> line[x] == a
  {
    seq(8, _ => a)
  }

  /** A line that is zero but for its first value. */
  function FirstOnly(a: int): (line: seq<int>)
    ensures |line| == 8 && line[0] == a && forall x :: 1 <= x < 8 ==> line[x] == 0
  {
    [a, 0, 0, 0, 0, 0, 0, 0]
  }

  lemma SumStep(line: seq<int>, c: Cosines, s: Bits8, half: nat, u: nat, n: nat)
    requires |line| == 8 && half > 0 && u < 8 && n < 8
    ensures Sum(line, c, s, half, u, 0) == 0
    ensures Sum(line, c, s, half, u, n + 1) == Sum(line, c, s, half, u, n) + Term(line[n], c[n][u], s[n][u], half)
  {
  }

  lemma SumOfTerms(line: seq<int>, c: Cosines, s: Bits8, half: nat, u: nat)
    requires |line| == 8 && half > 0 && u < 8
    ensures Sum(line, c, s, half, u, 8) ==
      Term(line[0], c[0][u], s[0][u], half) + Term(line[1], c[1][u], s[1][u], half) +
      Term(line[2], c[2][u], s[2][u], half) + Term(line[3], c[3][u], s[3][u], half) +
      Term(line[4], c[4][u], s[4][u], half) + Term(line[5], c[5][u], s[5][u], half) +
      Term(line[6], c[6][u], s[6][u], half) + Term(line[7], c[7][u], s[7][u], half)
  {
    hide *;
    SumStep(line, c, s, half, u, 0);
    SumStep(line, c, s, half, u, 1);
    SumStep(line, c, s, half, u, 2);
    SumStep(line, c, s, half, u, 3);
    SumStep(line, c, s, half, u, 4);
    SumStep(line, c, s, half, u, 5);
    SumStep(line, c, s, half, u, 6);
    SumStep(line, c, s, half, u, 7);
  }

  /** All samples of a line alike: the cosines of every frequency but the first cancel. */
  lemma FlatSum(a: int, half: nat, u: nat)
    requires half > 0 && u < 8
    ensures Sum(FlatLine(a), C, S, half, u, 8) == if u == 0 then 8 * Product(a, 23168, half) else 0
  {
    hide Product, Sum;
    SumOfTerms(FlatLine(a), C, S, half, u);
    match u
    case 0 =>
    case 1 =>
    case 2 =>
    case 3 =>
    case 4 =>
    case 5 =>
    case 6 =>
    case _ =>
  }

  lemma ZeroProduct(c: Cosine, half: nat)
    requires half > 0
    ensures Product(0, c, half) == 0
  {
  }

  /** A line with only its first frequency: every sample gets the same. */
  lemma FirstOnlySum(a: int, half: nat, u: nat)
    requires half > 0 && u < 8
    ensures Sum(FirstOnly(a), IC, IS, half, u, 8) == Product(a, 23168, half)
  {
    hide Product, Sum;
    SumOfTerms(FirstOnly(a), IC, IS, half, u);
    forall x | 1 <= x < 8
      ensures Product(0, IC[x][u], half) == 0
    {
      ZeroProduct(IC[x][u], half);
    }
    assert IC[0][u] == 23168 && IS[0][u] == 0;
  }

  function FlatGrid(a: int): Grid {
    seq(8, _ => FlatLine(a))
  }

  /** Only the coefficient of frequency zero. */
  function DcGrid(a: int): Grid {
    [FirstOnly(a)] + seq(7, _ => FirstOnly(0))
  }

  lemma FlatRows(a: int, b: int)
    requires b == 8 * Product(a, 23168, 2048)
    ensures Rows(FlatGrid(a), C, S, 2048, 1) == seq(8, y => FirstOnly(b))
  {
    hide Sum, Product;
    forall u | 0 <= u < 8
      ensures Line(FlatLine(a), C, S, 2048, 1)[u] == FirstOnly(b)[u]
    {
      FlatSum(a, 2048, u);
    }
    assert Line(FlatLine(a), C, S, 2048, 1) == FirstOnly(b);
  }

  lemma FlatColumns(b: int, d: int)
    requires d == Scaled(8 * Product(b, 23168, 131072), 4)
    ensures Columns(seq(8, y => FirstOnly(b)), C, S, 131072, 4) == DcGrid(d)
  {
    hide Sum, Product;
    var g: Grid := seq(8, y => FirstOnly(b));
    assert Column(g, 0) == FlatLine(b);
    forall y, x | 0 <= y < 8 && 0 <= x < 8
      ensures Line(Column(g, x), C, S, 131072, 4)[y] == DcGrid(d)[y][x]
    {
      if x > 0 {
        assert Column(g, x) == FlatLine(0);
        ZeroProduct(23168, 131072);
      }
      FlatSum(if x == 0 then b else 0, 131072, y);
    }
    hide Line;
    SameGrid(Columns(g, C, S, 131072, 4), DcGrid(d));
  }

  lemma RoundedProduct(v: int, half: nat, n: int)
    requires half > 0 && 2 * half * n <= 23168 * v + half < 2 * half * n + 2 * half
    ensures Product(v, 23168, half) == n
  {
    QuotientBound(23168 * v + half, 2 * half, n);
    QuotientBound(23168 * v + half, 2 * half, n + 1);
  }

  lemma FlatValues(a: int)
    requires -128 <= a <= 127
    ensures Scaled(8 * Product(8 * Product(a, 23168, 2048), 23168, 131072), 4) == 8 * a
  {
    var p := Product(a, 23168, 2048);
    assert 4096 * p <= 23168 * a + 2048 < 4096 * p + 4096;
    hide Product;
    assert Product(8 * p, 23168, 131072) == 4 * a by { RoundedProduct(8 * p, 131072, 4 * a); }
  }

  /** The two passes take a flat block to exactly eight times its value, in one coefficient. */
  lemma FlatForward(a: int)
    requires -128 <= a <= 127
    ensures Forward(FlatGrid(a)) == DcGrid(8 * a)
  {
    hide Sum, Product, Scaled, FlatGrid, DcGrid;
    var b := 8 * Product(a, 23168, 2048);
    FlatRows(a, b);
    FlatColumns(b, 8 * a) by { FlatValues(a); }
  }

  /** What the inverse transform makes of a block with only its first coefficient. */
  function DcLevel(n: int): int {
    Level(Scaled(Product(Product(n, 23168, 8192), 23168, 16384), 8))
  }

  lemma DcColumns(n: int, p: int)
    requires p == Product(n, 23168, 8192)
    ensures Columns(DcGrid(n), IC, IS, 8192, 1) == seq(8, y => FirstOnly(p))
  {
    hide Sum, Product;
    var g := DcGrid(n);
    forall y, x | 0 <= y < 8 && 0 <= x < 8
      ensures Line(Column(g, x), IC, IS, 8192, 1)[y] == FirstOnly(p)[x]
    {
      assert Column(g, x) == FirstOnly(if x == 0 then n else 0);
      ZeroProduct(23168, 8192);
      FirstOnlySum(if x == 0 then n else 0, 8192, y);
    }
    hide Line;
    SameGrid(Columns(g, IC, IS, 8192, 1), seq(8, y => FirstOnly(p)));
  }

  lemma DcRows(p: int, v: int)
    requires v == Level(Scaled(Product(p, 23168, 16384), 8))
    ensures Levelled(Rows(seq(8, y => FirstOnly(p)), IC, IS, 16384, 8)) == FlatGrid(v)
  {
    hide Sum, Product, Scaled, Level;
    forall u | 0 <= u < 8
      ensures Level(Line(FirstOnly(p), IC, IS, 16384, 8)[u]) == v
    {
      FirstOnlySum(p, 16384, u);
    }
    hide Line;
    SameGrid(Levelled(Rows(seq(8, y => FirstOnly(p)), IC, IS, 16384, 8)), FlatGrid(v));
  }

  lemma DcInverse(n: int)
    ensures Inverse(DcGrid(n)) == FlatGrid(DcLevel(n))
  {
    hide Sum, Product, Scaled, Level, FlatGrid, DcGrid;
    var p := Product(n, 23168, 8192);
    DcColumns(n, p);
    DcRows(p, DcLevel(n));
  }

  /** Both passes multiply by 181 and divide by a power of two. */
  lemma InSmallUnits(n: int, p: int, q: int)
    requires p == Product(n, 23168, 8192) && q == Product(p, 23168, 16384)
    ensures 128 * p <= 181 * n + 64 < 128 * p + 128
    ensures 256 * q <= 181 * p + 128 < 256 * q + 256
  {
  }

  /** A first coefficient within two of eight times a sample gives back the sample; so do three
      less, and three more except for dark samples. */
  lemma DcLevelExact(a: int, n: int)
    requires -128 <= a <= 127 && -3 <= n - 8 * a <= if a >= -86 then 3 else 2
    ensures DcLevel(n) == a + 128
  {
    var p := Product(n, 23168, 8192);
    var q := Product(p, 23168, 16384);
    InSmallUnits(n, p, q);
    hide Product;
    assert Scaled(q, 8) == a;
  }

  lemma LevelOf(n: int, p: int, q: int)
    requires 128 * p <= 181 * n + 64 < 128 * p + 128
    requires 256 * q <= 181 * p + 128 < 256 * q + 256
    ensures DcLevel(n) == Level(Scaled(q, 8))
  {
    hide Level, Scaled;
    RoundedProduct(n, 8192, p);
    RoundedProduct(p, 16384, q);
  }
}
