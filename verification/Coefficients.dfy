/** Magnitude categories of quantised coefficients: how many bits a value takes, which bits
    those are, and how they are turned back into the value (sections F.1.2.1 and F.2.2.1). */
module Coefficients {
  import opened Words

  function Abs(x: int): nat {
    if x < 0 then -x else x
  }

  function BitLength(n: nat): nat {
    if n == 0 then 0 else 1 + BitLength(n / 2)
  }

  /** The size category SSSS of a value. */
  function Size(x: int): nat {
    BitLength(Abs(x))
  }

  lemma {:induction false} BitLengthRange(n: nat)
    ensures n < Pow2(BitLength(n)) && (n > 0 ==> Pow2(BitLength(n) - 1) <= n)
  {
    if n == 0 {
    } else {
      BitLengthRange(n / 2);
    }
  }

  lemma SizeRange(x: int, n: nat)
    ensures Abs(x) < Pow2(n) <==> Size(x) <= n
  {
    BitLengthRange(Abs(x));
    if Size(x) <= n {
      Pow2Monotonic(Size(x), n);
    } else {
      Pow2Monotonic(n, Size(x) - 1);
    }
  }

  // ---- the priority encoder

  /** Bitwise AND. */
  function And(a: nat, b: nat): nat {
    if a == 0 || b == 0 then 0 else 2 * And(a / 2, b / 2) + if a % 2 == 1 && b % 2 == 1 then 1 else 0
  }

  /** The size of a value by four mask comparisons. */
  function Prio(x: int): nat {
    var x := Abs(x);
    (if And(x, 0xff00) > And(x, 0x00ff) then 8 else 0) +
    (if And(x, 0xf0f0) > And(x, 0x0f0f) then 4 else 0) +
    (if And(x, 0xcccc) > And(x, 0x3333) then 2 else 0) +
    (if And(x, 0xaaaa) > And(x, 0x5555) then 1 else 0) +
    (if x != 0 then 1 else 0)
  }

  predicate TestBit(m: nat, i: nat) {
    m / Pow2(i) % 2 == 1
  }

  lemma NextBit(m: nat, i: nat)
    ensures TestBit(m, i + 1) == TestBit(m / 2, i)
  {
    DivDiv(m, 2, Pow2(i));
  }

  lemma AndStep(x: nat, m: nat)
    ensures And(x, m) == 2 * And(x / 2, m / 2) + if x % 2 == 1 && m % 2 == 1 then 1 else 0
  {
  }

  lemma LowestBit(m: nat)
    ensures And(1, m) == m % 2
  {
    assert And(0, m / 2) == 0;
  }

  /** Of two complementary masks, the one that contains the top bit of x selects the larger
      part of x. */
  lemma {:induction false} TopBitDecides(x: nat, m: nat, m': nat, k: nat)
    requires 0 < x < Pow2(k) && m + m' == Pow2(k) - 1
    ensures And(x, m) > And(x, m') <==> TestBit(m, BitLength(x) - 1)
    ensures And(x, m) != And(x, m')
  {
    if x > 1 {
      var half, half' := m / 2, m' / 2;
      TopBitDecides(x / 2, half, half', k - 1);
      NextBit(m, BitLength(x / 2) - 1);
      AndStep(x, m);
      AndStep(x, m');
      assert BitLength(x) == 1 + BitLength(x / 2);
      hide And, TestBit, BitLength, Pow2;
    } else {
      LowestBit(m);
      LowestBit(m');
      assert BitLength(1) == 1 && Pow2(0) == 1;
      hide And, BitLength;
    }
  }

  /** The four masks have bit i where 8, 4, 2 and 1 are in the binary form of i. */
  predicate Numbered(i: nat) {
    && (TestBit(0xff00, i) <==> i / 8 % 2 == 1) && (TestBit(0xf0f0, i) <==> i / 4 % 2 == 1)
    && (TestBit(0xcccc, i) <==> i / 2 % 2 == 1) && (TestBit(0xaaaa, i) <==> i % 2 == 1)
  }

  lemma PowersBelow16()
    ensures Pow2(0) == 1 && Pow2(1) == 2 && Pow2(2) == 4 && Pow2(3) == 8
    ensures Pow2(4) == 16 && Pow2(5) == 32 && Pow2(6) == 64 && Pow2(7) == 128
    ensures Pow2(8) == 256 && Pow2(9) == 512 && Pow2(10) == 1024 && Pow2(11) == 2048
    ensures Pow2(12) == 4096 && Pow2(13) == 8192 && Pow2(14) == 16384 && Pow2(15) == 32768
  {
    assert Pow2(4) == 16;
    assert Pow2(8) == 256;
    assert Pow2(12) == 4096;
  }

  lemma LowBits(i: nat)
    requires i < 4
    ensures Numbered(i)
  {
    hide Pow2;
    PowersBelow16();
    assert i == 0 || i == 1 || i == 2 || i == 3;
  }

  lemma MiddleBits(i: nat)
    requires 4 <= i < 8
    ensures Numbered(i)
  {
    hide Pow2;
    PowersBelow16();
    assert i == 4 || i == 5 || i == 6 || i == 7;
  }

  lemma HighBits(i: nat)
    requires 8 <= i < 12
    ensures Numbered(i)
  {
    hide Pow2;
    PowersBelow16();
    assert i == 8 || i == 9 || i == 10 || i == 11;
  }

  lemma TopBits(i: nat)
    requires 12 <= i < 16
    ensures Numbered(i)
  {
    hide Pow2;
    PowersBelow16();
    assert i == 12 || i == 13 || i == 14 || i == 15;
  }

  lemma MasksNumberTheBits(i: nat)
    requires i < 16
    ensures Numbered(i)
  {
    hide Numbered;
    if i < 4 {
      LowBits(i);
    } else if i < 8 {
      MiddleBits(i);
    } else if i < 12 {
      HighBits(i);
    } else {
      TopBits(i);
    }
  }

  lemma AndZero(m: nat)
    ensures And(0, m) == 0
  {
  }

  lemma BitLengthOf(n: nat)
    ensures BitLength(n) == 0 <==> n == 0
  {
  }

  /** The four comparisons compute the size of every value of up to 16 bits. */
  lemma PrioIsSize(x: int)
    requires Abs(x) < 65536
    ensures Prio(x) == Size(x)
  {
    hide And, TestBit, BitLength, Pow2;
    var a := Abs(x);
    BitLengthOf(a);
    if a == 0 {
      AndZero(0xff00);
      AndZero(0xf0f0);
      AndZero(0xcccc);
      AndZero(0xaaaa);
    } else {
      Pow2Values();
      TopBitDecides(a, 0xff00, 0x00ff, 16);
      TopBitDecides(a, 0xf0f0, 0x0f0f, 16);
      TopBitDecides(a, 0xcccc, 0x3333, 16);
      TopBitDecides(a, 0xaaaa, 0x5555, 16);
      SizeRange(x, 16);
      MasksNumberTheBits(BitLength(a) - 1);
    }
  }

  // ---- magnitude bits

  /** The number whose low Size(x) bits are sent for x. */
  function Magnitude(x: int): int {
    if x < 0 then x - 1 else x
  }

  function MagnitudeBits(x: int): (s: seq<bool>)
    ensures |s| == Size(x)
  {
    Bits(Magnitude(x), Size(x))
  }

  /** EXTEND: v is a number of sz bits; without its top bit it stands for a negative value. */
  function Num(v: nat, sz: nat): int
    requires sz > 0
  {
    if v / Pow2(sz - 1) % 2 == 0 then v - Pow2(sz) + 1 else v
  }

  lemma TopBitSet(x: int, h: int)
    requires 0 < h <= x < 2 * h
    ensures x % (2 * h) == x && x / h == 1
  {
    DivUnique(x, 2 * h, 0, x);
    DivUnique(x, h, 1, x - h);
  }

  lemma TopBitClear(y: int, h: int)
    requires 0 < h && -2 * h <= y < -h
    ensures y % (2 * h) == y + 2 * h && (y + 2 * h) / h == 0
  {
    DivUnique(y, 2 * h, -1, y + 2 * h);
    DivUnique(y + 2 * h, h, 0, y + 2 * h);
  }

  lemma FirstBit(m: int, n: nat)
    requires n > 0
    ensures Bits(m, n)[0] == (m / Pow2(n - 1) % 2 == 1)
  {
    BitsSplit(m, 1, n - 1);
    var top := m / Pow2(n - 1);
    assert Bits(top, 1) == Bits(top / 2, 0) + [top % 2 == 1];
  }

  /** The number that the magnitude bits are in binary: the value itself, or for a negative one
      that with 2 to the size, less one, added. A positive value begins with a one bit. */
  lemma MagnitudeValue(x: int)
    requires x != 0
    ensures Val(MagnitudeBits(x)) == if x > 0 then x else x + Pow2(Size(x)) - 1
    ensures MagnitudeBits(x)[0] <==> x > 0
  {
    hide Bits, Val;
    var n, m := Size(x), Magnitude(x);
    var h := Pow2(n - 1);
    assert Pow2(n) == 2 * h;
    BitLengthRange(Abs(x));
    hide Pow2, BitLength;
    ValBits(m, n);
    FirstBit(m, n);
    if x > 0 {
      TopBitSet(x, h);
    } else {
      TopBitClear(m, h);
      DivUnique(m, h, -2, m + 2 * h);
    }
  }

  /** Receiving the magnitude bits of a value gives the value back. */
  lemma NumInvertsMagnitude(x: int)
    requires x != 0
    ensures Num(Mask(Magnitude(x), Size(x)), Size(x)) == x
  {
    var n := Size(x);
    var h := Pow2(n - 1);
    assert Pow2(n) == 2 * h;
    BitLengthRange(Abs(x));
    hide Pow2, BitLength;
    if x > 0 {
      TopBitSet(x, h);
    } else {
      TopBitClear(x - 1, h);
    }
  }
}
