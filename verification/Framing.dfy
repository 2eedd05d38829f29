/** The byte level of an entropy-coded segment: byte stuffing (section F.1.2.3 of T.81),
    padding with ones, restart markers (section E.1.4) and the final EOI. */
module Framing {
  import opened Words

  const EOI: byte := 217
  const RST0: byte := 208

  /** A byte as it is written: FF is followed by a zero. */
  function StuffByte(b: byte): seq<byte> {
    if b == 255 then [b, 0] else [b]
  }

  function Stuff(data: seq<byte>): seq<byte> {
    if data == [] then [] else StuffByte(data[0]) + Stuff(data[1..])
  }

  lemma {:induction false} StuffAppend(a: seq<byte>, b: seq<byte>)
    ensures Stuff(a + b) == Stuff(a) + Stuff(b)
  {
    if a == [] {
      assert a + b == b;
    } else {
      assert (a + b)[1..] == a[1..] + b;
      StuffAppend(a[1..], b);
    }
  }

  lemma StuffSnoc(a: seq<byte>, b: byte)
    ensures Stuff(a + [b]) == Stuff(a) + StuffByte(b)
  {
    StuffAppend(a, [b]);
    assert Stuff([b]) == StuffByte(b) + Stuff([]);
  }

  function BytesBits(data: seq<byte>): (s: seq<bool>)
    ensures |s| == 8 * |data|
  {
    if data == [] then [] else Bits(data[0], 8) + BytesBits(data[1..])
  }

  lemma {:induction false} BytesBitsAppend(a: seq<byte>, b: seq<byte>)
    ensures BytesBits(a + b) == BytesBits(a) + BytesBits(b)
  {
    if a == [] {
      assert a + b == b;
    } else {
      assert (a + b)[1..] == a[1..] + b;
      BytesBitsAppend(a[1..], b);
      assert Bits(a[0], 8) + (BytesBits(a[1..]) + BytesBits(b)) == Bits(a[0], 8) + BytesBits(a[1..]) + BytesBits(b);
    }
  }

  lemma BytesBitsSnoc(a: seq<byte>, b: byte)
    ensures BytesBits(a + [b]) == BytesBits(a) + Bits(b, 8)
  {
    BytesBitsAppend(a, [b]);
    assert BytesBits([b]) == Bits(b, 8) + BytesBits([]);
  }

  // ---- closing a segment

  function Ones(n: nat): (s: seq<bool>)
    ensures |s| == n
  {
    seq(n, _ => true)
  }

  lemma {:induction false} OnesAreBits(n: nat)
    ensures Bits(Pow2(n) - 1, n) == Ones(n)
  {
    if n == 0 {
    } else {
      assert (Pow2(n) - 1) / 2 == Pow2(n - 1) - 1;
      OnesAreBits(n - 1);
      assert Ones(n) == Ones(n - 1) + [true];
    }
  }

  /** The number of bits missing to a whole byte. */
  function PadLength(n: nat): (p: nat)
    ensures p < 8 && (n + p) % 8 == 0
  {
    (8 - n % 8) % 8
  }

  function Padded8(seg: seq<bool>): (s: seq<bool>)
    ensures |s| % 8 == 0
  {
    seg + Ones(PadLength(|seg|))
  }

  function Pack(s: seq<bool>): (data: seq<byte>)
    requires |s| % 8 == 0
    ensures BytesBits(data) == s
  {
    if s == [] then []
    else
      BitsVal(s[..8]);
      Pow2Values();
      var b: byte := Val(s[..8]);
      var rest := Pack(s[8..]);
      assert ([b] + rest)[1..] == rest;
      assert s == s[..8] + s[8..];
      [b] + rest
  }

  lemma {:induction false} BytesBitsInjective(a: seq<byte>, b: seq<byte>)
    requires BytesBits(a) == BytesBits(b)
    ensures a == b
  {
    if a == [] {
    } else {
      hide Bits, Pow2, Val;
      assert BytesBits(a)[..8] == Bits(a[0], 8) && BytesBits(b)[..8] == Bits(b[0], 8);
      assert BytesBits(a)[8..] == BytesBits(a[1..]) && BytesBits(b)[8..] == BytesBits(b[1..]);
      ByteBitsInjective(a[0], b[0]);
      BytesBitsInjective(a[1..], b[1..]);
    }
  }

  lemma PackUnique(data: seq<byte>, s: seq<bool>)
    requires BytesBits(data) == s
    ensures |s| % 8 == 0 && Pack(s) == data
  {
    hide Bits, Val, BytesBits;
    BytesBitsInjective(Pack(s), data);
  }

  /** The bytes of one entropy-coded segment. */
  function Close(seg: seq<bool>): seq<byte> {
    Stuff(Pack(Padded8(seg)))
  }

  /** A whole scan: segments separated by restart markers RSTr, RSTr+1, ..., counted modulo 8,
      and ended by EOI. */
  function Frame(segs: seq<seq<bool>>, r: nat): seq<byte>
    requires segs != [] && r < 8
  {
    Close(segs[0]) +
    if |segs| == 1 then [255, EOI] else [255, RST0 + r] + Frame(segs[1..], (r + 1) % 8)
  }
}
