/** Both transforms are the cosine transforms of section A.3.3 of ITU-T T.81: their factors are the
    cosines to 11 bits, and what each transform puts out is near to what the exact formula gives. */
module Cosines {
  import opened Transform
  import opened TransformError

  // ---- the cosines of the multiples of pi / 16

  /** The angle of at most half a turn with the same cosine. */
  function Half(n: nat): (m: nat)
    ensures m <= 16
  {
    if n % 32 <= 16 then n % 32 else 32 - n % 32
  }

  /** The angle of the first quarter with the same cosine but for the sign. */
  function Fold(n: nat): (m: nat)
    ensures m <= 8
  {
    if Half(n) <= 8 then Half(n) else 16 - Half(n)
  }

  /** The cosines of 1 to 7 times pi / 16. */
  datatype Angles = Angles(c1: real, c2: real, c3: real, c4: real, c5: real, c6: real, c7: real) {

    /** What makes them the cosines: they are not negative, and doubling an angle takes its cosine
        c to 2 c c - 1. The cosines of 0 and of 8 times pi / 16 are 1 and 0. */
    ghost predicate Valid() {
      && c1 >= 0.0 && c2 >= 0.0 && c3 >= 0.0 && c4 >= 0.0 && c5 >= 0.0 && c6 >= 0.0 && c7 >= 0.0
      && 2.0 * c4 * c4 - 1.0 == 0.0
      && 2.0 * c2 * c2 - 1.0 == c4 && 2.0 * c6 * c6 - 1.0 == -c4
      && 2.0 * c1 * c1 - 1.0 == c2 && 2.0 * c7 * c7 - 1.0 == -c2
      && 2.0 * c3 * c3 - 1.0 == c6 && 2.0 * c5 * c5 - 1.0 == -c6
    }

    /** The cosine of m pi / 16 in the first quarter. */
    function Quarter(m: nat): real {
      if m == 0 then 1.0 else if m == 1 then c1 else if m == 2 then c2 else if m == 3 then c3
      else if m == 4 then c4 else if m == 5 then c5 else if m == 6 then c6 else if m == 7 then c7 else 0.0
    }

    /** The cosine of n pi / 16. */
    function Cos(n: nat): real {
      if Half(n) > 8 then -Quarter(Fold(n)) else Quarter(Fold(n))
    }

    /** What sample x weighs in frequency u: cos((2 x + 1) u pi / 16), and for frequency 0 one
        divided by the root of 2, which is the cosine of 4 pi / 16. */
    function Weight(x: nat, u: nat): real {
      if u == 0 then c4 else Cos((2 * x + 1) * u)
    }
  }

  lemma Positive(a: real, b: real)
    requires a > 0.0 && b > 0.0
    ensures a * b > 0.0
  {
  }

  lemma RootNotBelow(c: real, low: real)
    requires c >= 0.0 && low >= 0.0 && low * low <= c * c
    ensures low <= c
  {
    if c < low {
      Positive(low - c, low + c);
    }
  }

  lemma Root(c: real, v: real, low: real, high: real)
    requires c >= 0.0 && 2.0 * c * c - 1.0 == v && low >= 0.0 && high >= 0.0
    requires 2.0 * low * low - 1.0 <= v <= 2.0 * high * high - 1.0
    ensures low <= c <= high
  {
    RootNotBelow(c, low);
    RootNotBelow(high, c);
  }

  /** The cosines to six places. */
  predicate Known(a: Angles) {
    && 0.980785 <= a.c1 <= 0.980786 && 0.923879 <= a.c2 <= 0.923880 && 0.831469 <= a.c3 <= 0.831470
    && 0.707106 <= a.c4 <= 0.707107 && 0.555570 <= a.c5 <= 0.555571 && 0.382683 <= a.c6 <= 0.382684
    && 0.195090 <= a.c7 <= 0.195091
  }

  lemma CosinesKnown(a: Angles)
    requires a.Valid()
    ensures Known(a)
  {
    Root(a.c4, 0.0, 0.7071067, 0.7071068);
    Root(a.c2, a.c4, 0.9238794, 0.9238796);
    Root(a.c6, -a.c4, 0.3826833, 0.3826836);
    Root(a.c1, a.c2, 0.9807851, 0.9807854);
    Root(a.c7, -a.c2, 0.1950900, 0.1950906);
    Root(a.c3, a.c6, 0.8314695, 0.8314698);
    Root(a.c5, -a.c6, 0.5555700, 0.5555704);
  }

  // ---- the factors

  /** The cosine of m pi / 16 as the programs have it, times 32768. */
  function Rounded(m: nat): int {
    if m == 1 then 32144 else if m == 2 then 30272 else if m == 3 then 27248
    else if m == 4 then 23168 else if m == 5 then 18208 else if m == 6 then 12544 else 6400
  }

  function RoundedCos(n: nat): int {
    if Half(n) > 8 then -Rounded(Fold(n)) else Rounded(Fold(n))
  }

  predicate Follows(f: int, n: nat) {
    f == RoundedCos(n) && 0 < Fold(n) < 8
  }

  predicate RowFollows(f: Factors, n: nat) {
    && Follows(f.f1, n) && Follows(f.f2, 2 * n) && Follows(f.f3, 3 * n) && Follows(f.f4, 4 * n)
    && Follows(f.f5, 5 * n) && Follows(f.f6, 6 * n) && Follows(f.f7, 7 * n)
  }

  lemma Row0()
    ensures RowFollows(Of(0), 1)
  {
    assert Follows(32144, 1) && Follows(30272, 2) && Follows(27248, 3) && Follows(23168, 4);
    assert Follows(18208, 5) && Follows(12544, 6) && Follows(6400, 7);
    hide Follows;
  }

  lemma Row1()
    ensures RowFollows(Of(1), 3)
  {
    assert Follows(27248, 3) && Follows(12544, 6) && Follows(-6400, 9) && Follows(-23168, 12);
    assert Follows(-32144, 15) && Follows(-30272, 18) && Follows(-18208, 21);
    hide Follows;
  }

  lemma Row2()
    ensures RowFollows(Of(2), 5)
  {
    assert Follows(18208, 5) && Follows(-12544, 10) && Follows(-32144, 15) && Follows(-23168, 20);
    assert Follows(6400, 25) && Follows(30272, 30) && Follows(27248, 35);
    hide Follows;
  }

  lemma Row3()
    ensures RowFollows(Of(3), 7)
  {
    assert Follows(6400, 7) && Follows(-30272, 14) && Follows(-18208, 21) && Follows(23168, 28);
    assert Follows(27248, 35) && Follows(-12544, 42) && Follows(-32144, 49);
    hide Follows;
  }

  lemma Row4()
    ensures RowFollows(Of(4), 9)
  {
    assert Follows(-6400, 9) && Follows(-30272, 18) && Follows(18208, 27) && Follows(23168, 36);
    assert Follows(-27248, 45) && Follows(-12544, 54) && Follows(32144, 63);
    hide Follows;
  }

  lemma Row5()
    ensures RowFollows(Of(5), 11)
  {
    assert Follows(-18208, 11) && Follows(-12544, 22) && Follows(32144, 33) && Follows(-23168, 44);
    assert Follows(-6400, 55) && Follows(30272, 66) && Follows(-27248, 77);
    hide Follows;
  }

  lemma Row6()
    ensures RowFollows(Of(6), 13)
  {
    assert Follows(-27248, 13) && Follows(12544, 26) && Follows(6400, 39) && Follows(-23168, 52);
    assert Follows(32144, 65) && Follows(-30272, 78) && Follows(18208, 91);
    hide Follows;
  }

  lemma Row7()
    ensures RowFollows(Of(7), 15)
  {
    assert Follows(-32144, 15) && Follows(30272, 30) && Follows(-27248, 45) && Follows(23168, 60);
    assert Follows(-18208, 75) && Follows(12544, 90) && Follows(-6400, 105);
    hide Follows;
  }

  lemma FactorFollows(x: nat, u: nat)
    requires x < 8 && 0 < u < 8
    ensures Follows(Of(x).At(u), (2 * x + 1) * u)
  {
    Row0();
    Row1();
    Row2();
    Row3();
    Row4();
    Row5();
    Row6();
    Row7();
    hide Of, Follows;
    assert RowFollows(Of(x), 2 * x + 1);
    assert u == 1 || u == 2 || u == 3 || u == 4 || u == 5 || u == 6 || u == 7;
  }

  lemma RoundedNearCos(a: Angles, n: nat)
    requires Known(a) && 0 < Fold(n) < 8
    ensures RoundedCos(n) % 16 == 0 && -8.0 < RoundedCos(n) as real - 32768.0 * a.Cos(n) < 8.0
    ensures -1.0 <= a.Cos(n) <= 1.0
  {
    hide Half, Fold;
  }

  /** Every factor of either program is 32768 times its weight, to the nearest multiple of 16. */
  lemma FactorsAreCosines(a: Angles, inverse: bool, k: nat, u: nat)
    requires a.Valid() && k < 8 && u < 8
    ensures var c, s, w := if inverse then IC else C,
      if inverse then IS else S, if inverse then a.Weight(u, k) else a.Weight(k, u);
      && Signed(c[k][u], s[k][u]) % 16 == 0
      && -8.0 < Signed(c[k][u], s[k][u]) as real - 32768.0 * w < 8.0
      && -1.0 <= w <= 1.0
  {
    hide C, S, IC, IS, Signed, RoundedCos, Angles.Cos, Angles.Valid;
    var x, f := if inverse then u else k, if inverse then k else u;
    CosinesKnown(a);
    Tables(x, f);
    if f > 0 {
      FactorFollows(x, f);
      RoundedNearCos(a, (2 * x + 1) * f);
    }
  }

  // ---- one pass over one line

  function WeightOf(a: Angles, inverse: bool, k: nat, u: nat): real {
    if inverse then a.Weight(u, k) else a.Weight(k, u)
  }

  /** The exact sum for u over the first n values of a line. */
  function Cosum(a: Angles, line: seq<real>, inverse: bool, u: nat, n: nat): real
    requires n <= |line|
  {
    if n == 0 then 0.0 else Cosum(a, line, inverse, u, n - 1) + line[n - 1] * WeightOf(a, inverse, n - 1, u)
  }

  predicate Near(a: real, b: real, d: real) {
    b - d <= a <= b + d
  }

  lemma FactorNearWeight(a: Angles, inverse: bool, k: nat, u: nat)
    requires a.Valid() && k < 8 && u < 8
    ensures Near(Factor(inverse, k, u) as real, 32768.0 * WeightOf(a, inverse, k, u), 8.0)
    ensures Near(Factor(inverse, k, u) as real, 0.0, 32144.0) && Near(WeightOf(a, inverse, k, u), 0.0, 1.0)
  {
    FactorInTables(inverse, k, u);
    FactorsAreCosines(a, inverse, k, u);
    hide C, S, IC, IS, Factor, Angles.Weight, Angles.Valid;
  }

  lemma NotNegative(a: real, b: real)
    requires a >= 0.0 && b >= 0.0
    ensures a * b >= 0.0
  {
  }

  lemma TimesAtMost(a: real, b: real, d: real, m: real)
    requires Near(a, 0.0, d) && Near(b, 0.0, m)
    ensures Near(a * b, 0.0, d * m)
  {
    var pp, mm := (d - a) * (m + b), (d + a) * (m - b);
    var pm, mp := (d - a) * (m - b), (d + a) * (m + b);
    NotNegative(d - a, m + b);
    NotNegative(d + a, m - b);
    NotNegative(d - a, m - b);
    NotNegative(d + a, m + b);
    assert pp == d * m + d * b - a * m - a * b;
    assert mm == d * m - d * b + a * m - a * b;
    assert pm == d * m - d * b - a * m + a * b;
    assert mp == d * m + d * b + a * m + a * b;
  }

  /** A value near e times a factor near the weight. */
  lemma ProductNear(v: real, e: real, f: real, w: real, d: real, m: real)
    requires Near(v, e, d) && Near(e, 0.0, m) && Near(f, 0.0, 32144.0) && Near(f, 32768.0 * w, 8.0)
    ensures Near(v * f, 32768.0 * (e * w), d * 32144.0 + m * 8.0)
  {
    TimesAtMost(v - e, f, d, 32144.0);
    TimesAtMost(e, f - 32768.0 * w, m, 8.0);
    assert v * f - 32768.0 * (e * w) == (v - e) * f + e * (f - 32768.0 * w);
  }

  predicate LineNear(line: seq<int>, exact: seq<real>, d: real, m: real) {
    && |line| == |exact| == 8
    && forall k :: 0 <= k < 8 ==> Near(line[k] as real, exact[k], d) && Near(exact[k], 0.0, m)
  }

  lemma LineAt(line: seq<int>, exact: seq<real>, d: real, m: real, k: nat)
    requires LineNear(line, exact, d, m) && k < 8
    ensures |line| == |exact| == 8 && Near(line[k] as real, exact[k], d) && Near(exact[k], 0.0, m)
  {
  }

  lemma CosumStep(a: Angles, line: seq<real>, inverse: bool, u: nat, n: nat)
    requires 0 < n <= |line|
    ensures Cosum(a, line, inverse, u, n) ==
            Cosum(a, line, inverse, u, n - 1) + line[n - 1] * WeightOf(a, inverse, n - 1, u)
  {
    hide WeightOf;
  }

  lemma Together(x: real, y: real, x': real, y': real, p: real, b: real)
    requires Near(x, 32768.0 * y, p) && Near(x', 32768.0 * y', b)
    ensures Near(x + x', 32768.0 * (y + y'), p + b)
  {
  }

  /** One more product in a sum of products, each within b. */
  lemma NextProduct(x: int, c: real, v: int, e: real, f: int, w: real, d: real, m: real, p: real, z: int, z': real)
    requires Near(x as real, 32768.0 * c, p) && z == x + v * f && z' == c + e * w
    requires Near(v as real, e, d) && Near(e, 0.0, m)
    requires Near(f as real, 0.0, 32144.0) && Near(f as real, 32768.0 * w, 8.0)
    ensures Near(z as real, 32768.0 * z', p + (d * 32144.0 + m * 8.0))
  {
    ProductNear(v as real, e, f as real, w, d, m);
    assert (v * f) as real == v as real * f as real;
    hide *;
    Together(x as real, c, v as real * f as real, e * w, p, d * 32144.0 + m * 8.0);
  }

  /** The sum of n times b. */
  function Total(n: nat, b: real): real {
    if n == 0 then 0.0 else Total(n - 1, b) + b
  }

  lemma NearStep(a: Angles, line: seq<int>, exact: seq<real>, inverse: bool, u: nat, n: nat, d: real, m: real)
    requires a.Valid() && LineNear(line, exact, d, m) && |line| == |exact| == 8 && u < 8 && 0 < n <= 8
    requires Near(Exact(line, inverse, u, n - 1) as real, 32768.0 * Cosum(a, exact, inverse, u, n - 1),
                  Total(n - 1, d * 32144.0 + m * 8.0))
    ensures Near(Exact(line, inverse, u, n) as real, 32768.0 * Cosum(a, exact, inverse, u, n),
                 Total(n - 1, d * 32144.0 + m * 8.0) + (d * 32144.0 + m * 8.0))
  {
    hide *;
    var k := n - 1;
    ExactStep(line, inverse, u, n);
    CosumStep(a, exact, inverse, u, n);
    FactorNearWeight(a, inverse, k, u);
    LineAt(line, exact, d, m, k);
    NextProduct(Exact(line, inverse, u, k), Cosum(a, exact, inverse, u, k), line[k], exact[k],
                Factor(inverse, k, u), WeightOf(a, inverse, k, u), d, m, Total(k, d * 32144.0 + m * 8.0),
                Exact(line, inverse, u, n), Cosum(a, exact, inverse, u, n));
  }

  lemma {:induction false} ExactNearCosum(a: Angles, line: seq<int>, exact: seq<real>, inverse: bool, u: nat, n: nat,
                                          d: real, m: real)
    requires a.Valid() && LineNear(line, exact, d, m) && u < 8 && n <= 8
    ensures Near(Exact(line, inverse, u, n) as real, 32768.0 * Cosum(a, exact, inverse, u, n),
                 Total(n, d * 32144.0 + m * 8.0))
  {
    if n == 0 {
    } else {
      ExactNearCosum(a, line, exact, inverse, u, n - 1, d, m);
      NearStep(a, line, exact, inverse, u, n, d, m);
      hide Near, Exact, Cosum;
    }
  }

  predicate AtMost(line: seq<real>, m: real) {
    |line| == 8 && forall k :: 0 <= k < 8 ==> Near(line[k], 0.0, m)
  }

  lemma NextAtMost(c: real, e: real, w: real, p: real, m: real, z: real)
    requires Near(c, 0.0, p) && Near(e, 0.0, m) && Near(w, 0.0, 1.0) && z == c + e * w
    ensures Near(z, 0.0, p + m)
  {
    TimesAtMost(e, w, m, 1.0);
  }

  lemma CosumStepAtMost(a: Angles, line: seq<real>, inverse: bool, u: nat, n: nat, p: real, m: real)
    requires a.Valid() && |line| == 8 && u < 8 && 0 < n <= 8 && Near(line[n - 1], 0.0, m)
    requires Near(Cosum(a, line, inverse, u, n - 1), 0.0, p)
    ensures Near(Cosum(a, line, inverse, u, n), 0.0, p + m)
  {
    hide *;
    FactorNearWeight(a, inverse, n - 1, u);
    CosumStep(a, line, inverse, u, n);
    NextAtMost(Cosum(a, line, inverse, u, n - 1), line[n - 1], WeightOf(a, inverse, n - 1, u), p, m,
               Cosum(a, line, inverse, u, n));
  }

  lemma {:induction false} CosumAtMost(a: Angles, line: seq<real>, inverse: bool, u: nat, n: nat, m: real)
    requires a.Valid() && AtMost(line, m) && u < 8 && n <= 8
    ensures Near(Cosum(a, line, inverse, u, n), 0.0, Total(n, m))
  {
    if n == 0 {
    } else {
      CosumAtMost(a, line, inverse, u, n - 1, m);
      hide Near, Cosum, Angles.Valid;
      CosumStepAtMost(a, line, inverse, u, n, Total(n - 1, m), m);
    }
  }

  lemma EightTimes(b: real)
    ensures Total(8, b) == 8.0 * b
  {
    assert Total(2, b) == Total(1, b) + b && Total(1, b) == Total(0, b) + b;
    assert Total(4, b) == Total(3, b) + b && Total(3, b) == Total(2, b) + b;
    assert Total(6, b) == Total(5, b) + b && Total(5, b) == Total(4, b) + b;
    assert Total(8, b) == Total(7, b) + b && Total(7, b) == Total(6, b) + b;
  }

  /** A register of either program after the eight values of a line. */
  function Register(line: seq<int>, inverse: bool, half: nat, u: nat): int
    requires |line| == 8 && half > 0 && u < 8
  {
    Sum(line, if inverse then IC else C, if inverse then IS else S, half, u, 8)
  }

  /** How far a register is from the exact sum for a line whose values are within d of exact ones,
      which are within m. */
  lemma RegisterNear(a: Angles, line: seq<int>, exact: seq<real>, inverse: bool, half: nat, u: nat, d: real, m: real)
    requires a.Valid() && LineNear(line, exact, d, m) && half > 0 && u < 8
    ensures Near((2 * half * Register(line, inverse, half, u)) as real, 32768.0 * Cosum(a, exact, inverse, u, 8),
                 8.0 * (d * 32144.0 + m * 8.0) + (8 * half) as real)
  {
    SumNear(line, inverse, half, u, 8);
    ExactNearCosum(a, line, exact, inverse, u, 8, d, m);
    EightTimes(d * 32144.0 + m * 8.0);
    hide Sum, Exact, Cosum, Total, C, S, IC, IS, LineNear, Angles.Valid;
  }

  function Reals(line: seq<int>): (r: seq<real>)
    ensures |r| == |line| && forall k :: 0 <= k < |r| ==> r[k] == line[k] as real
  {
    seq(|line|, k requires 0 <= k < |line| => line[k] as real)
  }

  function Scale(line: seq<real>, w: real): (r: seq<real>)
    ensures |r| == |line| && forall k :: 0 <= k < |r| ==> r[k] == w * line[k]
  {
    seq(|line|, k requires 0 <= k < |line| => w * line[k])
  }

  lemma ScaledSum(w: real, c: real, e: real, f: real, z: real, c': real, e': real, z': real)
    requires z == c + e * f && c' == w * c && e' == w * e && z' == c' + e' * f
    ensures z' == w * z
  {
    assert w * (e * f) == w * e * f;
  }

  lemma ScaledStep(a: Angles, line: seq<real>, w: real, inverse: bool, u: nat, n: nat)
    requires 0 < n <= |line|
    requires Cosum(a, Scale(line, w), inverse, u, n - 1) == w * Cosum(a, line, inverse, u, n - 1)
    ensures Cosum(a, Scale(line, w), inverse, u, n) == w * Cosum(a, line, inverse, u, n)
  {
    hide *;
    var big, f := Scale(line, w), WeightOf(a, inverse, n - 1, u);
    CosumStep(a, line, inverse, u, n);
    CosumStep(a, big, inverse, u, n);
    ScaledSum(w, Cosum(a, line, inverse, u, n - 1), line[n - 1], f, Cosum(a, line, inverse, u, n),
              Cosum(a, big, inverse, u, n - 1), big[n - 1], Cosum(a, big, inverse, u, n));
  }

  lemma NothingScaled(a: Angles, line: seq<real>, w: real, inverse: bool, u: nat)
    ensures Cosum(a, Scale(line, w), inverse, u, 0) == w * Cosum(a, line, inverse, u, 0)
  {
  }

  lemma {:induction false} CosumScaled(a: Angles, line: seq<real>, w: real, inverse: bool, u: nat, n: nat)
    requires n <= |line|
    ensures Cosum(a, Scale(line, w), inverse, u, n) == w * Cosum(a, line, inverse, u, n)
  {
    hide *;
    if n == 0 {
      NothingScaled(a, line, w, inverse, u);
    } else {
      CosumScaled(a, line, w, inverse, u, n - 1);
      ScaledStep(a, line, w, inverse, u, n);
    }
  }

  // ---- both passes

  /** The exact sums for u of all lines. */
  function Cosums(a: Angles, lines: seq<seq<int>>, inverse: bool, u: nat): (r: seq<real>)
    requires forall k :: 0 <= k < |lines| ==> |lines[k]| == 8
    ensures |r| == |lines| && forall k :: 0 <= k < |r| ==> r[k] == Cosum(a, Reals(lines[k]), inverse, u, 8)
  {
    seq(|lines|, k requires 0 <= k < |lines| => Cosum(a, Reals(lines[k]), inverse, u, 8))
  }

  /** The formula of the forward transform in section A.3.3 for frequencies v down and u across. */
  function ForwardFormula(a: Angles, g: Grid, v: nat, u: nat): real {
    Cosum(a, Cosums(a, g, false, u), false, v, 8) / 4.0
  }

  function Turned(g: Grid): (h: Grid)
    ensures forall x :: 0 <= x < 8 ==> h[x] == Column(g, x)
  {
    seq(8, x requires 0 <= x < 8 => Column(g, x))
  }

  /** The formula of the inverse transform for the sample at column x of line y. */
  function InverseFormula(a: Angles, g: Grid, y: nat, x: nat): real {
    Cosum(a, Cosums(a, Turned(g), true, y), true, x, 8) / 4.0
  }

  lemma Unscaled(v: int)
    ensures Scaled(v, 1) == v
  {
  }

  lemma ForwardFirst(a: Angles, line: seq<int>, u: nat)
    requires a.Valid() && |line| == 8 && Within(line, -128, 127) && u < 8
    ensures var e := 8.0 * Cosum(a, Reals(line), false, u, 8);
      Near(Sum(line, C, S, 2048, u, 8) as real, e, 6.0) && Near(e, 0.0, 8192.0)
  {
    hide Sum, Cosum, C, S, Angles.Valid;
    RegisterNear(a, line, Reals(line), false, 2048, u, 0.0, 128.0);
    CosumAtMost(a, Reals(line), false, u, 8, 128.0);
    EightTimes(128.0);
  }

  lemma ForwardSecond(a: Angles, line: seq<int>, exact: seq<real>, v: nat)
    requires a.Valid() && |exact| == 8 && LineNear(line, Scale(exact, 8.0), 6.0, 8192.0) && v < 8
    ensures Near(Scaled(Sum(line, C, S, 131072, v, 8), 4) as real, Cosum(a, exact, false, v, 8) / 4.0, 3.5)
  {
    hide Sum, Cosum, C, S, LineNear, Angles.Valid;
    RegisterNear(a, line, Scale(exact, 8.0), false, 131072, v, 6.0, 8192.0);
    CosumScaled(a, exact, 8.0, false, v, 8);
  }

  /** Every coefficient the encoder works out is within three and a half of the exact one. */
  lemma ForwardIsCosineTransform(a: Angles, g: Grid, v: nat, u: nat)
    requires a.Valid() && GridWithin(g, -128, 127) && v < 8 && u < 8
    ensures Near(Forward(g)[v][u] as real, ForwardFormula(a, g, v, u), 3.5)
  {
    hide Sum, Cosum, Angles.Valid, Near, Scaled;
    var mid := Rows(g, C, S, 2048, 1);
    var exact := Cosums(a, g, false, u);
    forall k | 0 <= k < 8
      ensures Near(Column(mid, u)[k] as real, Scale(exact, 8.0)[k], 6.0) && Near(Scale(exact, 8.0)[k], 0.0, 8192.0)
    {
      ForwardFirst(a, g[k], u);
      Unscaled(Sum(g[k], C, S, 2048, u, 8));
    }
    ForwardSecond(a, Column(mid, u), exact, v);
  }

  lemma InverseFirst(a: Angles, line: seq<int>, y: nat)
    requires a.Valid() && |line| == 8 && Within(line, -1024, 1023) && y < 8
    ensures var e := 2.0 * Cosum(a, Reals(line), true, y, 8);
      Near(Sum(line, IC, IS, 8192, y, 8) as real, e, 8.0) && Near(e, 0.0, 16384.0)
  {
    hide Sum, Cosum, IC, IS, Angles.Valid;
    RegisterNear(a, line, Reals(line), true, 8192, y, 0.0, 1024.0);
    CosumAtMost(a, Reals(line), true, y, 8, 1024.0);
    EightTimes(1024.0);
  }

  lemma InverseSecond(a: Angles, line: seq<int>, exact: seq<real>, x: nat)
    requires a.Valid() && |exact| == 8 && LineNear(line, Scale(exact, 2.0), 8.0, 16384.0) && x < 8
    ensures Near(Scaled(Sum(line, IC, IS, 16384, x, 8), 8) as real, Cosum(a, exact, true, x, 8) / 4.0, 13.0)
  {
    hide Sum, Cosum, IC, IS, LineNear, Angles.Valid;
    RegisterNear(a, line, Scale(exact, 2.0), true, 16384, x, 8.0, 16384.0);
    CosumScaled(a, exact, 2.0, true, x, 8);
  }

  /** Every register the decoder works out, before its clamp, is within thirteen of the exact
      sample. */
  lemma InverseIsCosineTransform(a: Angles, g: Grid, y: nat, x: nat)
    requires a.Valid() && GridWithin(g, -1024, 1023) && y < 8 && x < 8
    ensures Near(Unlevelled(g)[y][x] as real, InverseFormula(a, g, y, x), 13.0)
  {
    hide Sum, Cosum, Angles.Valid, Near, Scaled;
    var mid := Columns(g, IC, IS, 8192, 1);
    var exact := Cosums(a, Turned(g), true, y);
    forall k | 0 <= k < 8
      ensures Near(mid[y][k] as real, Scale(exact, 2.0)[k], 8.0) && Near(Scale(exact, 2.0)[k], 0.0, 16384.0)
    {
      ColumnWithin(g, k, -1024, 1023);
      InverseFirst(a, Column(g, k), y);
      Unscaled(Sum(Column(g, k), IC, IS, 8192, y, 8));
    }
    InverseSecond(a, mid[y], exact, x);
  }
}
