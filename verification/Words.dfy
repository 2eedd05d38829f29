/** Machine words and the bit strings they hold.

    The C sources keep pending bits in the low end of a 32-bit `int`, shifted left as new
    bits arrive. A word is modelled as an `int32` whose left shift wraps modulo 2^32, and its
    low `n` bits are read as a bit string, most significant bit first. */
module Words {
  type int32 = x: int | -0x8000_0000 <= x < 0x8000_0000
  type byte = x: int | 0 <= x < 256

  function Pow2(n: nat): (p: nat)
    ensures p >= 1
  {
    if n == 0 then 1 else 2 * Pow2(n - 1)
  }

  lemma {:induction false} Pow2Add(a: nat, b: nat)
    ensures Pow2(a + b) == Pow2(a) * Pow2(b)
  {
    if a == 0 {
    } else {
      Pow2Add(a - 1, b);
      assert Pow2(a + b) == 2 * Pow2(a - 1 + b);
      assert 2 * (Pow2(a - 1) * Pow2(b)) == (2 * Pow2(a - 1)) * Pow2(b);
    }
  }

  lemma Pow2Values()
    ensures Pow2(8) == 256 && Pow2(16) == 65536 && Pow2(32) == 0x1_0000_0000
  {
    assert Pow2(8) == 256;
    Pow2Add(8, 8);
    Pow2Add(16, 16);
  }

  lemma {:induction false} Pow2Monotonic(a: nat, b: nat)
    requires a <= b
    ensures Pow2(a) <= Pow2(b)
  {
    if a == b {
    } else {
      Pow2Monotonic(a, b - 1);
    }
  }

  // ---- division

  lemma MulMonotonic(d: int, x: int, y: int)
    requires d >= 0 && x <= y
    ensures d * x <= d * y
  {
  }

  lemma MulAssociative(a: int, b: int, c: int)
    ensures a * b * c == a * (b * c)
  {
  }

  lemma DivUnique(a: int, d: int, q: int, r: int)
    requires 0 <= r < d && a == d * q + r
    ensures a / d == q && a % d == r
  {
    var q', r' := a / d, a % d;
    assert d * (q - q') == r' - r;
    MulMonotonic(d, 1, if q > q' then q - q' else 1);
    MulMonotonic(d, if q < q' then q - q' else -1, -1);
  }

  lemma NestedDivision(a: int, b: int, c: int, q: int, r: int, s: int)
    requires a == b * (c * q + r) + s
    ensures a == (b * c) * q + (b * r + s)
  {
    assert b * (c * q + r) == b * (c * q) + b * r;
    MulAssociative(b, c, q);
  }

  lemma DivDiv(a: int, b: int, c: int)
    requires b > 0 && c > 0
    ensures b * c > 0 && a / b / c == a / (b * c)
  {
    var q, r := a / b, a % b;
    var q', r' := q / c, q % c;
    NestedDivision(a, b, c, q', r', r);
    MulMonotonic(b, r', c - 1);
    MulMonotonic(b, 0, r');
    assert b * (c - 1) == b * c - b;
    DivUnique(a, b * c, q', b * r' + r);
  }

  /** A number below n * d has a quotient by d below n, and conversely. */
  lemma QuotientBound(a: int, d: int, n: int)
    requires d > 0
    ensures a < n * d <==> a / d < n
  {
    if a / d < n {
      MulMonotonic(d, a / d + 1, n);
    } else {
      MulMonotonic(d, n, a / d);
    }
  }

  // ---- words as bit strings

  /** The low `n` bits of the two's complement number `v`. */
  function Bits(v: int, n: nat): (s: seq<bool>)
    ensures |s| == n
    decreases n
  {
    if n == 0 then [] else Bits(v / 2, n - 1) + [v % 2 == 1]
  }

  function Val(s: seq<bool>): nat {
    if s == [] then 0 else 2 * Val(s[..|s| - 1]) + (if s[|s| - 1] then 1 else 0)
  }

  lemma LastBit(v: int, n: nat)
    requires n > 0
    ensures Val(Bits(v, n)) == 2 * Val(Bits(v / 2, n - 1)) + v % 2
  {
    var s := Bits(v, n);
    assert s[..n - 1] == Bits(v / 2, n - 1);
  }

  lemma ModTwice(v: int, p: nat)
    requires p > 0
    ensures v % (2 * p) == 2 * (v / 2 % p) + v % 2
  {
    var q, r := v / 2 / p, v / 2 % p;
    assert v / 2 == p * q + r;
    MulAssociative(2, p, q);
    DivUnique(v, 2 * p, q, 2 * r + v % 2);
  }

  lemma {:induction false} ValBits(v: int, n: nat)
    ensures Val(Bits(v, n)) == v % Pow2(n)
    decreases n
  {
    if n == 0 {
    } else {
      ValBits(v / 2, n - 1);
      LastBit(v, n);
      hide Val, Bits;
      ModTwice(v, Pow2(n - 1));
    }
  }

  lemma {:induction false} BitsVal(s: seq<bool>)
    ensures Val(s) < Pow2(|s|)
    ensures Bits(Val(s), |s|) == s
  {
    if s == [] {
    } else {
      BitsVal(s[..|s| - 1]);
      assert s == s[..|s| - 1] + [s[|s| - 1]];
    }
  }

  lemma BitsInjective(a: int, b: int, n: nat)
    requires Bits(a, n) == Bits(b, n)
    ensures a % Pow2(n) == b % Pow2(n)
  {
    ValBits(a, n);
    ValBits(b, n);
  }

  lemma ByteBitsInjective(a: byte, b: byte)
    requires Bits(a, 8) == Bits(b, 8)
    ensures a == b
  {
    hide Bits;
    BitsInjective(a, b, 8);
    Pow2Values();
  }

  lemma {:induction false} BitsMod(v: int, m: int, n: nat)
    ensures Bits(v + m * Pow2(n), n) == Bits(v, n)
    decreases n
  {
    if n == 0 {
    } else {
      var x := m * Pow2(n - 1);
      assert m * Pow2(n) == 2 * x;
      BitsMod(v / 2, m, n - 1);
    }
  }

  /** A bit string is its high part followed by its low part. */
  lemma {:induction false} BitsSplit(v: int, n: nat, k: nat)
    ensures Bits(v, n + k) == Bits(v / Pow2(k), n) + Bits(v, k)
    decreases k
  {
    if k != 0 {
      BitsSplit(v / 2, n, k - 1);
      DivDiv(v, 2, Pow2(k - 1));
      assert Bits(v, n + k) == Bits(v / 2, n + (k - 1)) + [v % 2 == 1];
    } else {
      assert v / 1 == v;
    }
  }

  lemma BitsTake(v: int, n: nat, k: nat)
    ensures Bits(v, n + k)[..n] == Bits(v / Pow2(k), n)
    ensures Bits(v, n + k)[n..] == Bits(v, k)
  {
    BitsSplit(v, n, k);
  }

  lemma BitsMask(v: int, n: nat)
    ensures Bits(v % Pow2(n), n) == Bits(v, n)
  {
    var p := Pow2(n);
    assert v == v % p + (v / p) * p;
    BitsMod(v % p, v / p, n);
  }

  // ---- 32-bit shifting

  function Wrap32(v: int): int32 {
    (v + 0x8000_0000) % 0x1_0000_0000 - 0x8000_0000
  }

  function Wrap32Quotient(v: int, n: nat): int
    requires n <= 32
  {
    -((v + 0x8000_0000) / 0x1_0000_0000) * Pow2(32 - n)
  }

  lemma Wrap32Congruent(v: int, n: nat)
    requires n <= 32
    ensures Wrap32(v) == v + Wrap32Quotient(v, n) * Pow2(n)
  {
    var m, a, b := (v + 0x8000_0000) / 0x1_0000_0000, Pow2(32 - n), Pow2(n);
    assert a * b == 0x1_0000_0000 by {
      Pow2Values();
      Pow2Add(32 - n, n);
    }
    MulAssociative(-m, a, b);
  }

  /** `x & ((1 << n) - 1)`, also for negative x. */
  function Mask(x: int, n: nat): (r: nat)
    ensures r < Pow2(n)
  {
    x % Pow2(n)
  }

  /** `w << n` on a 32-bit int. */
  function Shl(w: int32, n: nat): (r: int32) {
    Wrap32(w * Pow2(n))
  }

  /** `w >> n` on a 32-bit int (arithmetic). */
  function Shr(w: int32, n: nat): int {
    w / Pow2(n)
  }

  /** A wrapped multiple of p stays a multiple of p when p divides the word size. */
  lemma WrapMultiple(w: int, p: int, h: int)
    requires p > 0 && h > 0 && h * p == 0x8000_0000
    ensures Wrap32(w * p) % p == 0 && Wrap32(w * p) + (p - 1) < 0x8000_0000
  {
    var m := (w * p + 0x8000_0000) / 0x1_0000_0000;
    var y := w - 2 * (m * h);
    assert p * y == w * p - 2 * m * (h * p) by {
      assert p * (2 * (m * h)) == 2 * m * (h * p);
    }
    assert Wrap32(w * p) == p * y;
    MulMonotonic(p, h, if y >= h then y else h);
    DivUnique(p * y, p, y, 0);
    MulMonotonic(p, y, h - 1);
    assert p * (h - 1) == h * p - p;
  }

  lemma ShlLowBitsClear(w: int32, n: nat)
    requires n <= 31
    ensures Shl(w, n) % Pow2(n) == 0
    ensures Shl(w, n) + (Pow2(n) - 1) < 0x8000_0000
  {
    var p, h := Pow2(n), Pow2(31 - n);
    assert h * p == 0x8000_0000 by {
      assert Pow2(32) == 2 * Pow2(31);
      Pow2Values();
      Pow2Add(31 - n, n);
    }
    WrapMultiple(w, p, h);
  }

  /** `(w << n) | x` for an `x` that fits the `n` freshly cleared bits. */
  function ShiftIn(w: int32, x: nat, n: nat): (r: int32)
    requires n <= 31 && x < Pow2(n)
  {
    ShlLowBitsClear(w, n);
    Shl(w, n) + x
  }

  /** Shifting in `n` bits appends them to the pending bits, as long as no pending bit
      leaves the 32-bit word. */
  lemma ShiftInBits(w: int32, c: nat, x: nat, n: nat)
    requires n <= 31 && c + n <= 32 && x < Pow2(n)
    ensures Bits(ShiftIn(w, x, n), c + n) == Bits(w, c) + Bits(x, n)
  {
    hide Bits, Pow2, Wrap32, Wrap32Quotient;
    var p := Pow2(n);
    var y := w * p;
    var q := Wrap32Quotient(y, c + n);
    Wrap32Congruent(y, c + n);
    BitsMod(y + x, q, c + n);
    BitsSplit(y + x, c, n);
    DivUnique(y + x, p, w, x);
    BitsMod(x, w, n);
  }
}
