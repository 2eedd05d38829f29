/** How far a block can be from what it was after the forward and the inverse transform: the
    factors of the two transforms are inverse to each other but for a small rest, and every
    product and sum is rounded. */
module TransformError {
  import opened Words
  import opened Coefficients
  import opened Transform

  // ---- the factors, with their signs

  datatype Factors = Factors(f0: int, f1: int, f2: int, f3: int, f4: int, f5: int, f6: int, f7: int) {
    function At(u: nat): int
      requires u < 8
    {
      if u == 0 then f0 else if u == 1 then f1 else if u == 2 then f2 else if u == 3 then f3
      else if u == 4 then f4 else if u == 5 then f5 else if u == 6 then f6 else f7
    }

    function Dot(o: Factors): int {
      f0 * o.f0 + f1 * o.f1 + f2 * o.f2 + f3 * o.f3 + f4 * o.f4 + f5 * o.f5 + f6 * o.f6 + f7 * o.f7
    }

    /** The sum of the magnitudes. */
    function Weight(): nat {
      Abs(f0) + Abs(f1) + Abs(f2) + Abs(f3) + Abs(f4) + Abs(f5) + Abs(f6) + Abs(f7)
    }
  }

  /** The factors of sample x, by frequency. */
  function Of(x: nat): Factors
    requires x < 8
  {
    match x
    case 0 => Factors(23168, 32144, 30272, 27248, 23168, 18208, 12544, 6400)
    case 1 => Factors(23168, 27248, 12544, -6400, -23168, -32144, -30272, -18208)
    case 2 => Factors(23168, 18208, -12544, -32144, -23168, 6400, 30272, 27248)
    case 3 => Factors(23168, 6400, -30272, -18208, 23168, 27248, -12544, -32144)
    case 4 => Factors(23168, -6400, -30272, 18208, 23168, -27248, -12544, 32144)
    case 5 => Factors(23168, -18208, -12544, 32144, -23168, -6400, 30272, -27248)
    case 6 => Factors(23168, -27248, 12544, 6400, -23168, 32144, -30272, 18208)
    case _ => Factors(23168, -32144, 30272, -27248, 23168, -18208, 12544, -6400)
  }

  function Signed(c: Cosine, s: Bit): int {
    if s == 1 then 0 - c else c
  }

  predicate Apart(a: int, b: int, d: int) {
    b - d <= a <= b + d
  }

  /** Both programs' tables hold these factors, from frequency u on. */
  predicate InTables(x: nat, u: nat)
    requires x < 8 && u <= 8
    decreases 8 - u
  {
    u < 8 ==>
      Signed(C[x][u], S[x][u]) == Of(x).At(u) && Signed(IC[u][x], IS[u][x]) == Of(x).At(u) && InTables(x, u + 1)
  }

  lemma AllInTables()
    ensures InTables(0, 0) && InTables(1, 0) && InTables(2, 0) && InTables(3, 0)
    ensures InTables(4, 0) && InTables(5, 0) && InTables(6, 0) && InTables(7, 0)
  {
  }

  lemma {:induction false} TableAt(x: nat, u: nat, from: nat)
    requires x < 8 && from <= u < 8 && InTables(x, from)
    ensures Signed(C[x][u], S[x][u]) == Of(x).At(u) == Signed(IC[u][x], IS[u][x])
    decreases u - from
  {
    hide Of, C, S, IC, IS, Signed;
    if from == u {
    } else {
      TableAt(x, u, from + 1);
    }
  }

  lemma Tables(x: nat, u: nat)
    requires x < 8 && u < 8
    ensures Signed(C[x][u], S[x][u]) == Of(x).At(u) == Signed(IC[u][x], IS[u][x])
  {
    hide InTables, Of, C, S, IC, IS, Signed;
    AllInTables();
    TableAt(x, u, 0);
  }

  /** The product of a with the factors of sample y, written out. */
  function Times(a: Factors, y: nat): int
    requires y < 8
  {
    match y
    case 0 =>
      a.f0 * 23168 + a.f1 * 32144 + a.f2 * 30272 + a.f3 * 27248 +
      a.f4 * 23168 + a.f5 * 18208 + a.f6 * 12544 + a.f7 * 6400
    case 1 =>
      a.f0 * 23168 + a.f1 * 27248 + a.f2 * 12544 - a.f3 * 6400 -
      a.f4 * 23168 - a.f5 * 32144 - a.f6 * 30272 - a.f7 * 18208
    case 2 =>
      a.f0 * 23168 + a.f1 * 18208 - a.f2 * 12544 - a.f3 * 32144 -
      a.f4 * 23168 + a.f5 * 6400 + a.f6 * 30272 + a.f7 * 27248
    case 3 =>
      a.f0 * 23168 + a.f1 * 6400 - a.f2 * 30272 - a.f3 * 18208 +
      a.f4 * 23168 + a.f5 * 27248 - a.f6 * 12544 - a.f7 * 32144
    case 4 =>
      a.f0 * 23168 - a.f1 * 6400 - a.f2 * 30272 + a.f3 * 18208 +
      a.f4 * 23168 - a.f5 * 27248 - a.f6 * 12544 + a.f7 * 32144
    case 5 =>
      a.f0 * 23168 - a.f1 * 18208 - a.f2 * 12544 + a.f3 * 32144 -
      a.f4 * 23168 - a.f5 * 6400 + a.f6 * 30272 - a.f7 * 27248
    case 6 =>
      a.f0 * 23168 - a.f1 * 27248 + a.f2 * 12544 + a.f3 * 6400 -
      a.f4 * 23168 + a.f5 * 32144 - a.f6 * 30272 + a.f7 * 18208
    case _ =>
      a.f0 * 23168 - a.f1 * 32144 + a.f2 * 30272 - a.f3 * 27248 +
      a.f4 * 23168 - a.f5 * 18208 + a.f6 * 12544 - a.f7 * 6400
  }

  lemma TimesIsDot(a: Factors, y: nat)
    requires y < 8
    ensures Times(a, y) == a.Dot(Of(y))
  {
  }

  /** Multiplied with each other, the factors of sample x and those of all samples from y on make
      nearly 2 to the power of 32 and nearly nothing. */
  predicate NearlyInverse(x: nat, y: nat)
    requires x < 8 && y <= 8
    decreases 8 - y
  {
    y < 8 ==> Apart(Times(Of(x), y), if x == y then 0x1_0000_0000 else 0, 923136) && NearlyInverse(x, y + 1)
  }

  lemma Rows0And1()
    ensures NearlyInverse(0, 0) && NearlyInverse(1, 0)
  {
  }

  lemma Rows2And3()
    ensures NearlyInverse(2, 0) && NearlyInverse(3, 0)
  {
  }

  lemma Rows4And5()
    ensures NearlyInverse(4, 0) && NearlyInverse(5, 0)
  {
  }

  lemma Row6()
    ensures NearlyInverse(6, 0)
  {
  }

  lemma Row7()
    ensures NearlyInverse(7, 0)
  {
  }

  lemma {:induction false} ProductAt(x: nat, y: nat, from: nat)
    requires x < 8 && from <= y < 8 && NearlyInverse(x, from)
    ensures Apart(Of(x).Dot(Of(y)), if x == y then 0x1_0000_0000 else 0, 923136)
    decreases y - from
  {
    TimesIsDot(Of(x), y);
    hide Of, Times, Factors.Dot;
    if from == y {
    } else {
      ProductAt(x, y, from + 1);
    }
  }

  lemma Products(x: nat, y: nat)
    requires x < 8 && y < 8
    ensures Apart(Of(x).Dot(Of(y)), if x == y then 0x1_0000_0000 else 0, 923136)
  {
    hide NearlyInverse, Of;
    Rows0And1();
    Rows2And3();
    Rows4And5();
    Row6();
    Row7();
    ProductAt(x, y, 0);
  }

  lemma Weights(x: nat)
    requires x < 8
    ensures Of(x).Weight() == 173152
  {
  }

  // ---- sums without rounding

  function Factor(inverse: bool, k: nat, u: nat): int
    requires k < 8 && u < 8
  {
    if inverse then Of(u).At(k) else Of(k).At(u)
  }

  /** Register u of either transform, were nothing rounded or divided. */
  function Exact(line: seq<int>, inverse: bool, u: nat, n: nat): int
    requires |line| == 8 && u < 8 && n <= 8
  {
    if n == 0 then 0 else Exact(line, inverse, u, n - 1) + line[n - 1] * Factor(inverse, n - 1, u)
  }

  lemma RoundedNear(a: int, half: nat)
    requires half > 0
    ensures Apart(2 * half * ((a + half) / (2 * half)), a, half)
  {
  }

  lemma TermNear(v: int, c: Cosine, s: Bit, half: nat)
    requires half > 0
    ensures Apart(2 * half * Term(v, c, s, half), v * Signed(c, s), 1 * half)
  {
    RoundedNear(v * c, half);
    var q := (v * c + half) / (2 * half);
    assert 2 * half * (0 - q) == 0 - 2 * half * q;
    assert v * (0 - c) == 0 - v * c;
  }

  lemma MulPlus(a: int, b: int, c: int)
    ensures a * (b + c) == a * b + a * c
  {
  }

  /** Sums of values that are near once scaled. */
  lemma NextApart(w: int, a: int, a': int, b: int, b': int, d: int, n: int, n': int)
    requires Apart(w * a, b, n * d) && Apart(w * a', b', n' * d)
    ensures Apart(w * (a + a'), b + b', (n + n') * d)
  {
    MulPlus(w, a, a');
    assert (n + n') * d == n * d + n' * d;
  }

  lemma ExactStep(line: seq<int>, inverse: bool, u: nat, n: nat)
    requires |line| == 8 && u < 8 && 0 < n <= 8
    ensures Exact(line, inverse, u, n) == Exact(line, inverse, u, n - 1) + line[n - 1] * Factor(inverse, n - 1, u)
  {
  }

  lemma FactorInTables(inverse: bool, k: nat, u: nat)
    requires k < 8 && u < 8
    ensures var c, s := if inverse then IC else C,
      if inverse then IS else S; Signed(c[k][u], s[k][u]) == Factor(inverse, k, u)
  {
    hide Of, C, S, IC, IS, Signed;
    if inverse {
      Tables(u, k);
    } else {
      Tables(k, u);
    }
  }

  lemma {:induction false} SumNear(line: seq<int>, inverse: bool, half: nat, u: nat, n: nat)
    requires |line| == 8 && half > 0 && u < 8 && n <= 8
    ensures Apart(2 * half * Sum(line, if inverse then IC else C, if inverse then IS else S, half, u, n),
                  Exact(line, inverse, u, n), n * half)
  {
    var c, s := if inverse then IC else C, if inverse then IS else S;
    if n == 0 {
      assert 2 * half * 0 == 0;
    } else {
      var k := n - 1;
      SumNear(line, inverse, half, u, k);
      hide *;
      SumStep(line, c, s, half, u, n);
      ExactStep(line, inverse, u, n);
      FactorInTables(inverse, k, u);
      TermNear(line[k], c[k][u], s[k][u], half);
      NextApart(2 * half, Sum(line, c, s, half, u, k), Term(line[k], c[k][u], s[k][u], half),
                Exact(line, inverse, u, k), line[k] * Factor(inverse, k, u), half, k, 1);
    }
  }

  /** The sum of the magnitudes of the first n factors. */
  function WeightTo(x: nat, n: nat): nat
    requires x < 8 && n <= 8
  {
    if n == 0 then 0 else WeightTo(x, n - 1) + Abs(Of(x).At(n - 1))
  }

  lemma WeightStep(x: nat, n: nat)
    requires x < 8 && 0 < n <= 8
    ensures WeightTo(x, n) == WeightTo(x, n - 1) + Abs(Of(x).At(n - 1))
    ensures Factor(true, n - 1, x) == Of(x).At(n - 1)
  {
    hide Of, Abs;
  }

  lemma WholeWeight(x: nat)
    requires x < 8
    ensures WeightTo(x, 8) == 173152
  {
    Weights(x);
    hide Of, Abs;
    forall n: nat | 0 < n <= 8
      ensures WeightTo(x, n) == WeightTo(x, n - 1) + Abs(Of(x).At(n - 1))
    {
      WeightStep(x, n);
    }
    assert WeightTo(x, 0) == 0;
    hide WeightTo;
    assert WeightTo(x, 4) == Abs(Of(x).f0) + Abs(Of(x).f1) + Abs(Of(x).f2) + Abs(Of(x).f3) by {
      assert WeightTo(x, 3) == WeightTo(x, 2) + Abs(Of(x).f2) && WeightTo(x, 2) == WeightTo(x, 1) + Abs(Of(x).f1);
    }
    assert WeightTo(x, 6) == WeightTo(x, 5) + Abs(Of(x).f5) && WeightTo(x, 7) == WeightTo(x, 6) + Abs(Of(x).f6);
  }

  lemma NextNear(a: int, b: int, a': int, b': int, d: int, w: int, w': int)
    requires Apart(a, b, d * w) && Apart(a', b', d * w')
    ensures Apart(a + a', b + b', d * (w + w'))
  {
    MulPlus(d, w, w');
  }

  lemma FactorNear(a: int, b: int, d: nat, f: int)
    requires Apart(a, b, d)
    ensures Apart(a * f, b * f, d * Abs(f))
  {
    var e := a - b;
    assert a * f == b * f + e * f;
    if f >= 0 {
      MulMonotonic(f, e, d);
      MulMonotonic(f, 0 - d, e);
      assert f * (0 - d) == 0 - d * f;
    } else {
      MulMonotonic(0 - f, e, d);
      MulMonotonic(0 - f, 0 - d, e);
      assert (0 - f) * e == 0 - e * f && (0 - f) * (0 - d) == 0 - (0 - f) * d;
    }
  }

  /** Lines that differ by at most d everywhere have inverse sums that differ by at most d times
      the weight of the factors. */
  lemma {:induction false} ExactNear(a: seq<int>, b: seq<int>, x: nat, n: nat, d: nat)
    requires |a| == |b| == 8 && x < 8 && n <= 8 && forall k :: 0 <= k < 8 ==> Apart(a[k], b[k], d)
    ensures Apart(Exact(a, true, x, n), Exact(b, true, x, n), d * WeightTo(x, n))
  {
    if n == 0 {
    } else {
      ExactNear(a, b, x, n - 1, d);
      hide *;
      var f := Of(x).At(n - 1);
      ExactStep(a, true, x, n);
      ExactStep(b, true, x, n);
      WeightStep(x, n);
      FactorNear(a[n - 1], b[n - 1], d, f);
      NextNear(Exact(a, true, x, n - 1), Exact(b, true, x, n - 1), a[n - 1] * f, b[n - 1] * f, d,
               WeightTo(x, n - 1), Abs(f));
    }
  }

  lemma LinearStep(a: int, b: int, w: int, f: int, e: int)
    ensures (a + w * b) * f == a * f + w * (b * f) && w * (e + b * f) == w * e + w * (b * f)
  {
  }

  /** The inverse sums are linear in the line. */
  lemma {:induction false} ExactPlus(a: seq<int>, b: seq<int>, w: int, r: seq<int>, x: nat, n: nat)
    requires |a| == |b| == |r| == 8 && x < 8 && n <= 8 && forall k :: 0 <= k < 8 ==> r[k] == a[k] + w * b[k]
    ensures Exact(r, true, x, n) == Exact(a, true, x, n) + w * Exact(b, true, x, n)
  {
    if n == 0 {
    } else {
      ExactPlus(a, b, w, r, x, n - 1);
      hide Of;
      var f := Of(x).At(n - 1);
      LinearStep(a[n - 1], b[n - 1], w, f, Exact(b, true, x, n - 1));
    }
  }

  // ---- one forward and one inverse pass

  /** The exact forward registers of the first m samples. */
  function Registers(v: seq<int>, m: nat): (r: seq<int>)
    requires |v| == 8 && m <= 8
    ensures |r| == 8 && forall u :: 0 <= u < 8 ==> r[u] == Exact(v, false, u, m)
  {
    seq(8, u requires 0 <= u < 8 => Exact(v, false, u, m))
  }

  function Listed(f: Factors): (r: seq<int>)
    ensures |r| == 8 && forall u :: 0 <= u < 8 ==> r[u] == f.At(u)
  {
    seq(8, u requires 0 <= u < 8 => f.At(u))
  }

  lemma ListedDot(x: nat, y: nat)
    requires x < 8 && y < 8
    ensures Exact(Listed(Of(x)), true, y, 8) == Of(x).Dot(Of(y))
  {
    hide Of;
    var r, f := Listed(Of(x)), Of(y);
    forall n: nat | 0 < n <= 8
      ensures Exact(r, true, y, n) == Exact(r, true, y, n - 1) + Of(x).At(n - 1) * Of(y).At(n - 1)
    {
      ExactStep(r, true, y, n);
    }
    assert Exact(r, true, y, 0) == 0;
    hide Exact;
    assert Exact(r, true, y, 4) == r[0] * f.f0 + r[1] * f.f1 + r[2] * f.f2 + r[3] * f.f3 by {
      assert Exact(r, true, y, 2) == Exact(r, true, y, 1) + r[1] * f.f1 && Exact(r, true, y, 1) == r[0] * f.f0;
      assert Exact(r, true, y, 3) == Exact(r, true, y, 2) + r[2] * f.f2;
    }
    assert Exact(r, true, y, 5) == Exact(r, true, y, 4) + r[4] * f.f4
      && Exact(r, true, y, 6) == Exact(r, true, y, 5) + r[5] * f.f5;
    assert Exact(r, true, y, 7) == Exact(r, true, y, 6) + r[6] * f.f6;
  }

  /** The samples weighted with the products of the factors. */
  function Mixed(v: seq<int>, y: nat, m: nat): int
    requires |v| == 8 && y < 8 && m <= 8
  {
    if m == 0 then 0 else Mixed(v, y, m - 1) + v[m - 1] * Of(m - 1).Dot(Of(y))
  }

  lemma {:induction false} ExactOfNothing(v: seq<int>, y: nat, n: nat)
    requires |v| == 8 && y < 8 && n <= 8 && forall k :: 0 <= k < 8 ==> v[k] == 0
    ensures Exact(v, true, y, n) == 0
  {
    if n == 0 {
    } else {
      ExactOfNothing(v, y, n - 1);
    }
  }

  /** Inverting exact registers weights the samples with the products of the factors. */
  lemma {:induction false} InverseOfRegisters(v: seq<int>, y: nat, m: nat)
    requires |v| == 8 && y < 8 && m <= 8
    ensures Exact(Registers(v, m), true, y, 8) == Mixed(v, y, m)
  {
    hide Of;
    if m == 0 {
      ExactOfNothing(Registers(v, 0), y, 8);
    } else {
      InverseOfRegisters(v, y, m - 1);
      ListedDot(m - 1, y);
      ExactPlus(Registers(v, m - 1), Listed(Of(m - 1)), v[m - 1], Registers(v, m), y, 8);
    }
  }

  lemma MixedStep(v: seq<int>, y: nat, m: nat)
    requires |v| == 8 && y < 8 && 0 < m <= 8
    ensures Mixed(v, y, m) == Mixed(v, y, m - 1) + v[m - 1] * Of(m - 1).Dot(Of(y))
  {
    hide Of;
  }

  lemma NextBound(a: int, b: int, a': int, b': int, n: int, d: int)
    requires Apart(a, b, n * d) && Apart(a', b', d)
    ensures Apart(a + a', b + b', (n + 1) * d)
  {
    assert (n + 1) * d == n * d + d;
  }

  lemma ProductNear(v: int, bound: nat, g: int, one: int)
    requires Apart(v, 0, bound) && Apart(g, one, 923136)
    ensures Apart(v * g, one * v, 923136 * bound)
  {
    var e := g - one;
    assert v * g == one * v + e * v;
    FactorNear(e, 0, 923136, v);
    MulMonotonic(923136, Abs(v), bound);
  }

  lemma {:induction false} MixedNear(v: seq<int>, y: nat, m: nat, bound: nat)
    requires |v| == 8 && y < 8 && m <= 8 && forall k :: 0 <= k < 8 ==> Apart(v[k], 0, bound)
    ensures Apart(Mixed(v, y, m), if y < m then 0x1_0000_0000 * v[y] else 0, m * (923136 * bound))
  {
    if m == 0 {
    } else {
      var k, g := m - 1, Of(m - 1).Dot(Of(y));
      MixedNear(v, y, k, bound);
      hide *;
      Products(k, y);
      ProductNear(v[k], bound, g, if k == y then 0x1_0000_0000 else 0);
      MixedStep(v, y, m);
      NextBound(Mixed(v, y, k), if y < k then 0x1_0000_0000 * v[y] else 0, v[k] * g,
                if k == y then 0x1_0000_0000 * v[k] else 0, k, 923136 * bound);
    }
  }

  lemma ScaledApart(k: nat, a: int, b: int, d: int)
    requires Apart(a, b, d)
    ensures Apart(k * a, k * b, k * d)
  {
    MulMonotonic(k, a, b + d);
    MulMonotonic(k, b - d, a);
    assert k * (b + d) == k * b + k * d && k * (b - d) == k * b - k * d;
  }

  /** The registers r, in units of one over k, are near the exact ones of the line v, and the value
      p, in units of one over w, is near the exact inverse sum of r: then p is near sample x. */
  lemma LineBack(v: seq<int>, r: seq<int>, p: int, x: nat, k: nat, w: nat, e: nat, e': nat, bound: nat)
    requires |v| == |r| == 8 && x < 8 && forall i :: 0 <= i < 8 ==> Apart(v[i], 0, bound)
    requires forall u :: 0 <= u < 8 ==> Apart(k * r[u], Exact(v, false, u, 8), e)
    requires Apart(w * p, Exact(r, true, x, 8), e')
    ensures Apart(k * (w * p), 0x1_0000_0000 * v[x], k * e' + e * 173152 + 8 * (923136 * bound))
  {
    hide Exact, Mixed, WeightTo;
    var scaled, zeros := seq(8, u requires 0 <= u < 8 => k * r[u]), seq(8, _ => 0);
    ExactOfNothing(zeros, x, 8);
    ExactPlus(zeros, r, k, scaled, x, 8);
    ExactNear(scaled, Registers(v, 8), x, 8, e);
    WholeWeight(x);
    InverseOfRegisters(v, x, 8);
    MixedNear(v, x, 8, bound);
    ScaledApart(k, w * p, Exact(r, true, x, 8), e');
  }

  lemma ScaledNear(v: int, round: nat)
    requires round == 1 || round == 4 || round == 8
    ensures Apart(round * Scaled(v, round), v, round / 2)
  {
  }

  lemma CoefficientNear(v: seq<int>, f: int, d: nat, u: nat)
    requires |v| == 8 && u < 8 && Apart(f, Line(v, C, S, 131072, 4)[u], d)
    ensures Apart(1048576 * f, Exact(v, false, u, 8), 1572864 + 1048576 * d)
  {
    hide Exact, Sum;
    SumNear(v, false, 131072, u, 8);
    ScaledNear(Sum(v, C, S, 131072, u, 8), 4);
  }

  lemma ColumnUnits(p: int, v: int, d: nat)
    requires Apart(1048576 * (16384 * p), 0x1_0000_0000 * v,
                   1048576 * 65536 + (1572864 + 1048576 * d) * 173152 + 8 * (923136 * 5792))
    ensures Apart(4 * p, v, 89 + 43 * d)
  {
  }

  /** A column, transformed, disturbed by at most d and transformed back in the first inverse
      pass, where it is scaled to a quarter. */
  lemma ColumnBack(v: seq<int>, f: seq<int>, d: nat, y: nat)
    requires |v| == |f| == 8 && y < 8 && forall i :: 0 <= i < 8 ==> Apart(v[i], 0, 5792)
    requires forall u :: 0 <= u < 8 ==> Apart(f[u], Line(v, C, S, 131072, 4)[u], d)
    ensures Apart(4 * Line(f, IC, IS, 8192, 1)[y], v[y], 89 + 43 * d)
  {
    hide Exact, Sum, Apart;
    var p := Line(f, IC, IS, 8192, 1)[y];
    forall u | 0 <= u < 8
      ensures Apart(1048576 * f[u], Exact(v, false, u, 8), 1572864 + 1048576 * d)
    {
      CoefficientNear(v, f[u], d, u);
    }
    assert Scaled(Sum(f, IC, IS, 8192, y, 8), 1) == Sum(f, IC, IS, 8192, y, 8);
    SumNear(f, true, 8192, y, 8);
    LineBack(v, f, p, y, 1048576, 16384, 1572864 + 1048576 * d, 65536, 5792);
    ColumnUnits(p, v[y], d);
  }

  lemma RegisterNear(v: seq<int>, r: int, a: nat, u: nat)
    requires |v| == 8 && u < 8 && Apart(r, Line(v, C, S, 2048, 1)[u], a)
    ensures Apart(4096 * r, Exact(v, false, u, 8), 16384 + 4096 * a)
  {
    hide Exact, Sum;
    SumNear(v, false, 2048, u, 8);
    assert Scaled(Sum(v, C, S, 2048, u, 8), 1) == Sum(v, C, S, 2048, u, 8);
  }

  lemma RowUnits(q: int, r: int, v: int, a: nat)
    requires Apart(4096 * (131072 * q), 0x1_0000_0000 * v,
                   4096 * 524288 + (16384 + 4096 * a) * 173152 + 8 * (923136 * 128))
    requires Apart(8 * r, q, 4)
    ensures Apart(1000 * r, 1000 * v, 1881 + 166 * a)
  {
  }

  /** A row, transformed, its registers off by at most a from four times those that are
      transformed back in the second inverse pass. */
  lemma RowBack(v: seq<int>, p: seq<int>, a: nat, x: nat)
    requires |v| == |p| == 8 && x < 8 && forall i :: 0 <= i < 8 ==> Apart(v[i], 0, 128)
    requires forall u :: 0 <= u < 8 ==> Apart(4 * p[u], Line(v, C, S, 2048, 1)[u], a)
    ensures Apart(1000 * Line(p, IC, IS, 16384, 8)[x], 1000 * v[x], 1881 + 166 * a)
  {
    hide Exact, Sum, Apart;
    var four, zeros := seq(8, u requires 0 <= u < 8 => 4 * p[u]), seq(8, _ => 0);
    var q := Sum(p, IC, IS, 16384, x, 8);
    forall u | 0 <= u < 8
      ensures Apart(4096 * four[u], Exact(v, false, u, 8), 16384 + 4096 * a)
    {
      RegisterNear(v, four[u], a, u);
    }
    ExactOfNothing(zeros, x, 8);
    ExactPlus(zeros, p, 4, four, x, 8);
    SumNear(p, true, 16384, x, 8);
    ScaledApart(4, 32768 * q, Exact(p, true, x, 8), 131072);
    LineBack(v, four, q, x, 4096, 131072, 16384 + 4096 * a, 524288, 128);
    ScaledNear(q, 8);
    RowUnits(q, Scaled(q, 8), v[x], a);
  }

  // ---- blocks

  ghost predicate GridApart(a: Grid, b: Grid, d: nat) {
    forall y, x :: 0 <= y < 8 && 0 <= x < 8 ==> Apart(a[y][x], b[y][x], d)
  }

  lemma ColumnOfBlock(g: Grid, f: Grid, d: nat, y: nat, x: nat)
    requires GridApart(f, Forward(g), d) && y < 8 && x < 8
    requires GridWithin(Rows(g, C, S, 2048, 1), -5792, 5768)
    ensures Apart(4 * Columns(f, IC, IS, 8192, 1)[y][x], Rows(g, C, S, 2048, 1)[y][x], 89 + 43 * d)
  {
    hide Line, Rows;
    var r := Rows(g, C, S, 2048, 1);
    forall u | 0 <= u < 8
      ensures Apart(Column(f, x)[u], Line(Column(r, x), C, S, 131072, 4)[u], d)
    {
      assert Apart(f[u][x], Forward(g)[u][x], d);
    }
    forall i | 0 <= i < 8
      ensures Apart(Column(r, x)[i], 0, 5792)
    {
      assert Within(r[i], -5792, 5768);
    }
    ColumnBack(Column(r, x), Column(f, x), d, y);
  }

  lemma RowOfBlock(v: seq<int>, p: seq<int>, a: nat, x: nat)
    requires |v| == |p| == 8 && x < 8 && Within(v, -128, 127)
    requires forall u :: 0 <= u < 8 ==> Apart(4 * p[u], Line(v, C, S, 2048, 1)[u], a)
    ensures Apart(1000 * Line(p, IC, IS, 16384, 8)[x], 1000 * v[x], 1881 + 166 * a)
  {
    hide Line;
    RowBack(v, p, a, x);
  }

  lemma LevelNear(r: int, v: int, d: nat)
    requires -128 <= v <= 127 && Apart(1000 * r, 1000 * v, 1881 + 166 * (89 + 43 * d))
    ensures Apart(Level(r), v + 128, 16 + 8 * d)
  {
  }

  /** Whatever the block: if every coefficient is within d of what the forward transform gave, then
      every sample is within 16 + 8 d of what it was. */
  lemma InverseNear(g: Grid, f: Grid, d: nat, y: nat, x: nat)
    requires GridWithin(g, -128, 127) && GridApart(f, Forward(g), d) && y < 8 && x < 8
    ensures Apart(Inverse(f)[y][x], g[y][x] + 128, 16 + 8 * d)
  {
    var r, p := Rows(g, C, S, 2048, 1), Columns(f, IC, IS, 8192, 1);
    FirstPass();
    hide Line, Maps, Apart;
    RowsRange(g, -128, 127, C, S, 2048, 1, -5792, 5768);
    forall u | 0 <= u < 8
      ensures Apart(4 * p[y][u], r[y][u], 89 + 43 * d)
    {
      ColumnOfBlock(g, f, d, y, u);
    }
    RowOfBlock(g[y], p[y], 89 + 43 * d, x);
    LevelNear(Line(p[y], IC, IS, 16384, 8)[x], g[y][x], d);
  }
}
