/** The entropy decoder: a reader that looks ahead up to 23 bits and may swallow a restart
    marker before its interval is decoded, the block decoder, and the loop over MCUs. */
module EntropyDecoder {
  import opened Words
  import opened Coefficients
  import opened CanonicalCodes
  import opened CodecTables
  import opened Framing
  import opened ScanCoding

  // ---- what a byte read means

  datatype Input =
    | Data(b: byte, next: nat)
    | Restart(n: nat, next: nat)
    | EndOfImage(next: nat)
    | EndOfFile
    | Unexpected(next: nat)

  /** The position behind any number of FF fill bytes. */
  function SkipFill(inp: seq<byte>, pos: nat): (p: nat)
    requires pos <= |inp|
    ensures pos <= p <= |inp|
    decreases |inp| - pos
  {
    if pos < |inp| && inp[pos] == 255 then SkipFill(inp, pos + 1) else pos
  }

  function ReadByte(inp: seq<byte>, pos: nat): Input
    requires pos <= |inp|
  {
    if pos == |inp| then EndOfFile
    else if inp[pos] != 255 then Data(inp[pos], pos + 1)
    else
      var p := SkipFill(inp, pos + 1);
      if p == |inp| then Unexpected(p)
      else if inp[p] == 0 then Data(255, p + 1)
      else if RST0 <= inp[p] <= RST0 + 7 then Restart(inp[p] - RST0, p + 1)
      else if inp[p] == EOI then EndOfImage(p + 1)
      else Unexpected(p + 1)
  }

  /** What the decoder makes of the input where a restart marker should be. */
  function FindMarker(inp: seq<byte>, pos: nat): Input
    requires pos <= |inp|
  {
    if pos == |inp| || inp[pos] != 255 then Unexpected(pos)
    else
      var p := SkipFill(inp, pos + 1);
      if p < |inp| && RST0 <= inp[p] <= RST0 + 7 then Restart(inp[p] - RST0, p + 1) else Unexpected(p)
  }

  ghost predicate AllFill(inp: seq<byte>, from: nat, to: nat)
    requires from <= to <= |inp|
  {
    forall k :: from <= k < to ==> inp[k] == 255
  }

  lemma {:induction false} SkipsAll(inp: seq<byte>, pos: nat, p: nat)
    requires pos <= p <= |inp| && AllFill(inp, pos, p) && (p < |inp| ==> inp[p] != 255)
    ensures SkipFill(inp, pos) == p
    decreases p - pos
  {
    if pos == p {
    } else {
      SkipsAll(inp, pos + 1, p);
    }
  }

  /** What the reader finds behind any number of FF bytes. Without one, a byte stands for itself;
      behind them, 00 stands for a byte FF, D0 to D7 are restart markers, D9 is the end of the
      image, and everything else is refused. */
  lemma FillThenCode(inp: seq<byte>, pos: nat, p: nat)
    requires pos <= p <= |inp| && AllFill(inp, pos, p) && (p < |inp| ==> inp[p] != 255)
    ensures ReadByte(inp, pos) ==
      if p == |inp| then if pos == p then EndOfFile else Unexpected(p)
      else if pos == p then Data(inp[p], p + 1)
      else if inp[p] == 0 then Data(255, p + 1)
      else if inp[p] / 8 == 26 then Restart(inp[p] % 8, p + 1)
      else if inp[p] == 217 then EndOfImage(p + 1)
      else Unexpected(p + 1)
    ensures FindMarker(inp, pos) ==
      if pos < p < |inp| && inp[p] / 8 == 26 then Restart(inp[p] % 8, p + 1) else Unexpected(p)
  {
    if pos < p {
      SkipsAll(inp, pos + 1, p);
    }
  }

  ghost predicate IsMarker(mark: byte) {
    RST0 <= mark <= RST0 + 7 || mark == EOI
  }

  lemma ReadMark(inp: seq<byte>, pos: nat, mark: byte, tail: seq<byte>)
    requires pos <= |inp| && IsMarker(mark) && inp[pos..] == [255, mark] + tail
    ensures ReadByte(inp, pos) == (if mark == EOI then EndOfImage(pos + 2) else Restart(mark - RST0, pos + 2))
    ensures pos + 2 <= |inp| && inp[pos + 2..] == tail
  {
    assert inp[pos] == inp[pos..][0] == 255 && inp[pos + 1] == inp[pos..][1] == mark;
    assert inp[pos + 2..] == inp[pos..][2..];
  }

  lemma ReadData(inp: seq<byte>, pos: nat, b: byte, rest: seq<byte>)
    requires pos <= |inp| && inp[pos..] == StuffByte(b) + rest
    ensures ReadByte(inp, pos) == Data(b, pos + |StuffByte(b)|)
    ensures 1 <= |StuffByte(b)| <= |inp| - pos && inp[pos + |StuffByte(b)|..] == rest
  {
    var k := |StuffByte(b)|;
    assert inp[pos] == inp[pos..][0] == b;
    if b == 255 {
      assert inp[pos + 1] == inp[pos..][1] == 0;
    }
    assert inp[pos + k..] == inp[pos..][k..];
  }

  lemma StuffedFirst(unread: seq<byte>, after: seq<byte>)
    requires unread != []
    ensures Stuff(unread) + after == StuffByte(unread[0]) + (Stuff(unread[1..]) + after)
  {
    hide StuffByte;
  }

  /** Reading undoes stuffing, and reading on finds the marker. */
  lemma ReadStuffed(inp: seq<byte>, pos: nat, unread: seq<byte>, mark: byte, tail: seq<byte>)
    requires pos <= |inp| && IsMarker(mark) && inp[pos..] == Stuff(unread) + [255, mark] + tail
    ensures unread == [] ==>
      && ReadByte(inp, pos) == (if mark == EOI then EndOfImage(pos + 2) else Restart(mark - RST0, pos + 2))
      && pos + 2 <= |inp| && inp[pos + 2..] == tail
    ensures unread != [] ==>
      && ReadByte(inp, pos).Data? && ReadByte(inp, pos).b == unread[0]
      && pos < ReadByte(inp, pos).next <= |inp|
      && inp[ReadByte(inp, pos).next..] == Stuff(unread[1..]) + [255, mark] + tail
  {
    if unread == [] {
      hide ReadByte;
      assert inp[pos..] == [255, mark] + tail;
      ReadMark(inp, pos, mark, tail);
    } else {
      StuffedFirst(unread, [255, mark] + tail);
      hide *;
      ReadData(inp, pos, unread[0], Stuff(unread[1..]) + ([255, mark] + tail));
      assert Stuff(unread) + [255, mark] + tail == Stuff(unread) + ([255, mark] + tail);
      assert Stuff(unread[1..]) + [255, mark] + tail == Stuff(unread[1..]) + ([255, mark] + tail);
    }
  }

  /** Which tables each component is decoded with. */
  datatype Windows = Windows(hd: seq<nat>, ha: seq<nat>, dc: seq<WindowTable>, ac: seq<WindowTable>) {
    predicate Valid() {
      && |hd| == |ha| == 4 && |dc| == |ac| == 2
      && (forall j :: 0 <= j < 4 ==> hd[j] < 2 && ha[j] < 2)
      && (forall t :: 0 <= t < 2 ==> |dc[t].symbol| == |ac[t].symbol| == FULL)
    }

    function Dc(j: nat): WindowTable
      requires Valid() && j < 4
    {
      dc[hd[j]]
    }

    function Ac(j: nat): WindowTable
      requires Valid() && j < 4
    {
      ac[ha[j]]
    }
  }

  class Decoder {
    const inp: seq<byte>
    var pos: nat
    var bits: int32
    var bitc: nat
    var rstdtc: bool
    var rstn: nat
    var eoi: bool
    var exited: bool   // an error message was printed and the program left

    const pdc: array<int>
    const zz: array<int>

    const windows: Windows

    ghost var ahead: seq<bool>  // bits of the segment not consumed yet, padding included
    ghost var unread: seq<byte> // data bytes of the segment not read yet
    ghost var mark: byte        // the marker that ends the segment
    ghost var tail: seq<byte>   // what follows the marker

    /** The bits in the buffer and the bytes not yet read are what lies ahead. Once the marker
        is swallowed, everything ahead is in the buffer, followed by bits that mean nothing. */
    ghost predicate Valid()
      reads this
    {
      && pos <= |inp| && bitc <= 23 && pdc.Length == 4 && zz.Length == 64 && windows.Valid()
      && !exited && IsMarker(mark) && !(rstdtc && eoi)
      && (rstdtc ==> mark != EOI && rstn == mark - RST0)
      && (eoi ==> mark == EOI) && (mark == EOI ==> tail == [])
      && (!rstdtc && !eoi ==>
            && inp[pos..] == Stuff(unread) + [255, mark] + tail
            && ahead == Bits(bits, bitc) + BytesBits(unread))
      && (rstdtc || eoi ==>
            && inp[pos..] == tail && ahead <= Bits(bits, bitc))
    }

    constructor (inp: seq<byte>, windows: Windows)
      ensures this.inp == inp && this.windows == windows && pos == 0 && bitc == 0 && !rstdtc && !eoi && !exited
      ensures pdc.Length == 4 && pdc[..] == ZEROS && zz.Length == 64 && fresh(pdc) && fresh(zz)
    {
      this.inp, this.windows := inp, windows;
      pos, bits, bitc, rstn := 0, 0, 0, 0;
      rstdtc, eoi, exited := false, false, false;
      pdc := new int[4](_ => 0);
      zz := new int[64](_ => 0);
      ahead, unread, mark, tail := [], [], EOI, [];
    }

    method Fgetc() returns (b: int)
      requires pos <= |inp|
      modifies this`pos
      ensures pos <= |inp|
      ensures if old(pos) < |inp| then b == inp[old(pos)] && pos == old(pos) + 1 else b == -1 && pos == old(pos)
    {
      if pos < |inp| {
        b := inp[pos];
        pos := pos + 1;
      } else {
        b := -1;
      }
    }

    /** Reads and unstuffs a byte. After a restart marker no byte is read, and the result is
        whatever the variable happened to hold. */
    method Bin() returns (b: int)
      requires pos <= |inp|
      modifies this`pos, this`rstdtc, this`rstn, this`eoi, this`exited
      ensures pos <= |inp|
      ensures old(rstdtc) ==> unchanged(this`pos, this`rstdtc, this`rstn, this`eoi, this`exited)
      ensures !old(rstdtc) ==>
        match ReadByte(inp, old(pos))
        case Data(v, p) => b == v && pos == p && unchanged(this`rstdtc, this`rstn, this`eoi, this`exited)
        case Restart(n, p) => rstdtc && rstn == n && pos == p && unchanged(this`eoi, this`exited)
        case EndOfImage(p) => eoi && pos == p && unchanged(this`rstdtc, this`rstn, this`exited)
        case EndOfFile => b == -1 && unchanged(this`pos, this`rstdtc, this`rstn, this`eoi, this`exited)
        case Unexpected(p) => exited && pos == p && unchanged(this`rstdtc, this`rstn, this`eoi)
    {
      b := *;
      if !rstdtc {
        b := Fgetc();
        if b == 255 {
          b := Fgetc();
          while b == 255
            invariant pos <= |inp| && old(pos) < pos
            invariant if b == -1 then pos == |inp| == SkipFill(inp, old(pos) + 1)
                      else b == inp[pos - 1] && old(pos) + 2 <= pos &&
                           SkipFill(inp, old(pos) + 1) == SkipFill(inp, pos - 1)
            modifies this`pos
            decreases |inp| - pos, if b == 255 then 1 else 0
          {
            b := Fgetc();
          }
          if 208 <= b <= 215 {
            rstdtc := true;
            rstn := b % 8;
          } else if b == 0xd9 {
            eoi := true;
            return;
          } else if b != 0 {
            exited := true;
          } else {
            b := 255;
          }
        }
      }
    }

    static lemma AtEnd(inp: seq<byte>, pos: nat)
      requires pos <= |inp| && inp[pos..] == []
      ensures ReadByte(inp, pos) == EndOfFile
    {
    }

    static lemma ByteMask(b: int)
      ensures Mask(b, 8) < 256 && (0 <= b < 256 ==> Mask(b, 8) == b)
      ensures Pow2(8) == 256
    {
      Pow2Values();
    }

    static lemma NextByte(data: seq<byte>)
      ensures data == [] ==> BytesBits(data) == []
      ensures data != [] ==> BytesBits(data) == Bits(data[0], 8) + BytesBits(data[1..])
    {
    }

    method Shift()
      requires Valid() && bitc < 16
      modifies this`pos, this`bits, this`bitc, this`rstdtc, this`rstn, this`eoi, this`exited, this`unread
      ensures Valid() && bitc == old(bitc) + 8
    {
      hide Bits, BytesBits, Stuff, Pow2, ReadByte;
      if !rstdtc && !eoi {
        ReadStuffed(inp, pos, unread, mark, tail);
      } else if eoi {
        assert inp[pos..] == [];
        AtEnd(inp, pos);
      }
      ghost var wasHit := rstdtc || eoi;
      var b := Bin();
      var v := Mask(b, 8);
      ByteMask(b);
      ShiftInBits(bits, bitc, v, 8);
      bits := ShiftIn(bits, v, 8);
      bitc := bitc + 8;
      if !wasHit {
        if unread != [] {
          NextByte(unread);
          unread := unread[1..];
        } else {
          NextByte(unread);
        }
      }
    }

    /** Makes sure that at least x bits are in the buffer. */
    method Enough(x: nat)
      requires Valid() && x <= 16
      modifies this`pos, this`bits, this`bitc, this`rstdtc, this`rstn, this`eoi, this`exited, this`unread
      ensures Valid() && ahead == old(ahead) && bitc >= x && bitc >= old(bitc)
    {
      hide Bits, BytesBits, Stuff, Pow2;
      while bitc < x
        invariant Valid() && bitc >= old(bitc)
        decreases 16 - bitc
      {
        Shift();
      }
    }

    /** The next n bits ahead are the top n of the buffered ones. */
    lemma BufferedAhead(n: nat, k: nat)
      requires Valid() && n + k == bitc && n <= |ahead|
      ensures Bits(Shr(bits, k), n) == ahead[..n]
      ensures n + k <= 23
    {
      hide Bits, BytesBits, Stuff, Pow2;
      BitsTake(bits, n, k);
    }

    lemma AfterConsume(n: nat)
      requires Valid() && n <= bitc && n <= |ahead|
      ensures !rstdtc && !eoi ==> ahead[n..] == Bits(bits, bitc - n) + BytesBits(unread)
      ensures rstdtc || eoi ==> ahead[n..] <= Bits(bits, bitc - n)
    {
      hide Bits, BytesBits, Stuff, Pow2;
      BitsTake(bits, n, bitc - n);
    }

    static lemma ShrShr(w: int32, a: nat, b: nat)
      ensures Shr(w, a) / Pow2(b) == Shr(w, a + b)
    {
      hide Pow2;
      Pow2Add(a, b);
      DivDiv(w, Pow2(a), Pow2(b));
    }

    /** A window whose top n bits are a code of n bits. */
    static lemma WindowIsSymbol(enc: CodeTable, v: byte, x: int, n: nat)
      requires v < |enc.code| == |enc.len| && enc.len[v] == n && 1 <= n <= 16 && enc.code[v] < Pow2(n)
      ensures Mask(x, 16) < FULL
      ensures Bits(x / Pow2(16 - n), n) == CodeBits(enc, v) ==> InWindow(Mask(x, 16), enc.code[v], n)
    {
      Pow2Values();
      hide Bits, Pow2;
      if Bits(x / Pow2(16 - n), n) == CodeBits(enc, v) {
        BitsMask(x, 16);
        BitsTake(x, n, 16 - n);
        BitsTake(Mask(x, 16), n, 16 - n);
        BitsInjective(Mask(x, 16) / Pow2(16 - n), enc.code[v], n);
        Pow2Add(n, 16 - n);
        QuotientBound(Mask(x, 16), Pow2(16 - n), Pow2(n));
        SmallMod(enc.code[v], Pow2(n));
        SmallMod(Mask(x, 16) / Pow2(16 - n), Pow2(n));
      }
    }

    /** Looks a 16-bit window up and drops the bits of the code found. When the bits ahead start
        with the code of a symbol both tables agree on, that symbol is found, whatever follows. */
    method DecodeSymbol(t: WindowTable, ghost enc: CodeTable, ghost v: byte) returns (rs: byte)
      requires Valid() && |t.symbol| == FULL && Matches(enc, t, v) && CodeBits(enc, v) <= ahead
      modifies this`pos, this`bits, this`bitc, this`rstdtc, this`rstn, this`eoi, this`exited, this`unread, this`ahead
      ensures Valid() && rs == v && ahead == old(ahead)[|CodeBits(enc, v)|..]
    {
      hide Bits, BytesBits, Stuff, Pow2;
      Enough(16);
      var w := Mask(Shr(bits, bitc - 16), 16);
      ghost var n := enc.len[v];
      WindowIsSymbol(enc, v, Shr(bits, bitc - 16), n);
      BufferedAhead(n, bitc - n);
      ShrShr(bits, bitc - 16, 16 - n);
      rs := t.symbol[w];
      assert t.len[rs] == n <= bitc by { hide Valid; }
      AfterConsume(n);
      ahead := ahead[n..];
      bitc := bitc - t.len[rs];
    }

    /** Receives sz bits. */
    method Receive(sz: nat) returns (v: nat)
      requires Valid() && sz <= 16 && sz <= |ahead|
      modifies this`pos, this`bits, this`bitc, this`rstdtc, this`rstn, this`eoi, this`exited, this`unread, this`ahead
      ensures Valid() && v < Pow2(sz) && Bits(v, sz) == old(ahead)[..sz] && ahead == old(ahead)[sz..]
    {
      hide Bits, BytesBits, Stuff, Pow2;
      Enough(sz);
      v := Mask(Shr(bits, bitc - sz), sz);
      BitsMask(Shr(bits, bitc - sz), sz);
      BufferedAhead(sz, bitc - sz);
      AfterConsume(sz);
      ahead := ahead[sz..];
      bitc := bitc - sz;
    }

    static lemma SizeZero(x: int)
      ensures Size(x) == 0 <==> x == 0
    {
    }

    /** Receives the magnitude bits of a value and extends them. */
    method ReceiveValue(sz: nat, ghost x: int) returns (v: int)
      requires Valid() && sz == Size(x) && 1 <= sz <= 16 && MagnitudeBits(x) <= ahead
      modifies this`pos, this`bits, this`bitc, this`rstdtc, this`rstn, this`eoi, this`exited, this`unread, this`ahead
      ensures Valid() && v == x && ahead == old(ahead)[sz..]
    {
      hide Bits, BytesBits, Stuff, Pow2, BitLength;
      var m := Receive(sz);
      BitsInjective(m, Magnitude(x), sz);
      SmallMod(m, Pow2(sz));
      SizeZero(x);
      NumInvertsMagnitude(x);
      v := Num(m, sz);
    }

    static function Limited(x: int): int {
      if x > 1023 then 1023 else if x < -1024 then -1024 else x
    }

    /** The limit changes a value to the nearest one that fits. */
    static lemma LimitedIsNearest(x: int, y: int)
      requires -1024 <= y <= 1023
      ensures -1024 <= Limited(x) <= 1023 && Abs(Limited(x) - x) <= Abs(y - x)
    {
    }

    /** Both sides agree on every symbol the block is coded with. */
    static ghost predicate Codable(zz: Block, pred: int, dc: CodeTable, ac: CodeTable, dcw: WindowTable,
                                   acw: WindowTable) {
      && Size(zz[0] - pred) < 256 && Matches(dc, dcw, Size(zz[0] - pred))
      && forall v: nat :: v in AcSymbols(zz, 1) ==> v < 256 && Matches(ac, acw, v)
    }

    static lemma DiffSize(block: Block, pred: int)
      requires InRange(block) && -1024 <= pred <= 1023
      ensures Size(block[0] - pred) <= 11
    {
      assert Pow2(11) == 2048;
      SizeRange(block[0] - pred, 11);
    }

    /** The first coefficient: the difference to the predictor, clamped with it. */
    method DecDc(c: nat, ghost block: Block, ghost dc: CodeTable, ghost rest: seq<bool>)
      requires Valid() && c < 4 && InRange(block) && -1024 <= pdc[c] <= 1023
      requires Size(block[0] - pdc[c]) < 256 && Matches(dc, windows.Dc(c), Size(block[0] - pdc[c]))
      requires ahead == DcBits(block[0] - pdc[c], dc) + rest
      modifies this`pos, this`bits, this`bitc, this`rstdtc, this`rstn, this`eoi, this`exited, this`unread,
        this`ahead, pdc, zz
      ensures Valid() && ahead == rest && pdc[..] == old(pdc[..][c := block[0]])
      ensures zz[0] == block[0] && forall j :: 1 <= j < 64 ==> zz[j] == old(zz[j])
    {
      hide Bits, BytesBits, Stuff, Pow2, BitLength, Matches, CodeBits, MagnitudeBits;
      ghost var diff0 := block[0] - pdc[c];
      assert ahead == CodeBits(dc, Size(diff0)) + (MagnitudeBits(diff0) + rest);
      DiffSize(block, pdc[c]);
      var rs := DecodeSymbol(windows.Dc(c), dc, Size(diff0));
      var diff := 0;
      SizeZero(diff0);
      if rs != 0 {
        diff := ReceiveValue(rs, diff0);
      }
      assert ahead == rest;
      zz[0] := Limited(diff + pdc[c]);
      pdc[c] := zz[0];
    }

    static lemma AcEnd(zz: Block, t: CodeTable)
      ensures AcBits(zz, 64, t) == [] && AcSymbols(zz, 64) == []
    {
    }

    static lemma TailSymbols(v: nat, tail: seq<nat>, all: seq<nat>)
      requires all == [v] + tail
      ensures forall u: nat :: u in tail ==> u in all
    {
    }

    static lemma CoefficientSize(x: int)
      requires -1023 <= x <= 1023
      ensures Size(x) <= 10 && (x != 0 ==> 1 <= Size(x))
    {
      assert Pow2(10) == 1024;
      SizeRange(x, 10);
      SizeZero(x);
    }

    /** The symbol that the bits for the coefficients from i on start with. */
    static lemma AcNext(block: Block, i: nat, t: CodeTable)
      requires 1 <= i < 64 && InRange(block)
      ensures var n := NextNonzero(block, i);
        && (n == 64 ==> AcBits(block, i, t) == CodeBits(t, 0) && AcSymbols(block, i) == [0])
        && (n < 64 && n - i >= 16 ==>
              && AcBits(block, i, t) == CodeBits(t, 240) + AcBits(block, i + 16, t)
              && AcSymbols(block, i) == [240] + AcSymbols(block, i + 16))
        && (n < 64 && n - i < 16 ==>
              && AcBits(block, i, t) ==
                CodeBits(t, (n - i) * 16 + Size(block[n])) + MagnitudeBits(block[n]) + AcBits(block, n + 1, t)
              && AcSymbols(block, i) == [(n - i) * 16 + Size(block[n])] + AcSymbols(block, n + 1)
              && 1 <= Size(block[n]) <= 10 && block[n] != 0)
    {
      hide CodeBits, MagnitudeBits, BitLength, NextNonzero, Size;
      var n := NextNonzero(block, i);
      if n < 64 {
        CoefficientSize(block[n]);
      }
    }

    /** The bits from i on start with the symbol v: after v / 16 zeros comes a coefficient of size
        v % 16, which for ZRL is one more zero. */
    static ghost predicate StartsWith(block: Block, i: nat, t: CodeTable, v: nat)
      requires 1 <= i < 64
    {
      if v == 0 then AcBits(block, i, t) == CodeBits(t, v) && forall j :: i <= j < 64 ==> block[j] == 0
      else
        var next := i + v / 16;
        && next < 64 && -1023 <= block[next] <= 1023 && (forall j :: i <= j < next ==> block[j] == 0)
        && v % 16 == Size(block[next]) <= 10 && (v % 16 == 0 ==> block[next] == 0 && MagnitudeBits(block[next]) == [])
        && AcBits(block, i, t) == CodeBits(t, v) + MagnitudeBits(block[next]) + AcBits(block, next + 1, t)
        && AcSymbols(block, i) == [v] + AcSymbols(block, next + 1)
    }

    static lemma StartsWithValue(block: Block, i: nat, n: nat, t: CodeTable)
      requires 1 <= i <= n < 64 && n - i < 16 && InRange(block) && block[n] != 0
      requires forall j :: i <= j < n ==> block[j] == 0
      requires 1 <= Size(block[n]) <= 10
      requires AcBits(block, i, t) == CodeBits(t, (n - i) * 16 + Size(block[n])) + MagnitudeBits(block[n])
        + AcBits(block, n + 1, t)
      requires AcSymbols(block, i) == [(n - i) * 16 + Size(block[n])] + AcSymbols(block, n + 1)
      ensures StartsWith(block, i, t, (n - i) * 16 + Size(block[n]))
    {
      hide AcBits, AcSymbols, CodeBits, MagnitudeBits, Size;
      var v := (n - i) * 16 + Size(block[n]);
      assert v / 16 == n - i && v % 16 == Size(block[n]);
    }

    static lemma StartsWithZeros(block: Block, i: nat, t: CodeTable)
      requires 1 <= i && i + 15 < 64 && forall j :: i <= j < i + 16 ==> block[j] == 0
      requires AcBits(block, i, t) == CodeBits(t, 240) + AcBits(block, i + 16, t)
      requires AcSymbols(block, i) == [240] + AcSymbols(block, i + 16)
      ensures StartsWith(block, i, t, 240)
    {
      hide AcBits, AcSymbols, CodeBits, BitLength, Bits;
      SizeZero(0);
      assert MagnitudeBits(0) == [];
      assert CodeBits(t, 240) + MagnitudeBits(0) == CodeBits(t, 240);
    }

    static lemma StartsWithEnd(block: Block, i: nat, t: CodeTable)
      requires 1 <= i < 64 && AcBits(block, i, t) == CodeBits(t, 0) && AcSymbols(block, i) == [0]
      requires forall j :: i <= j < 64 ==> block[j] == 0
      ensures StartsWith(block, i, t, 0)
    {
      hide AcBits, AcSymbols, CodeBits;
    }

    static lemma FirstOf(symbols: seq<nat>, v: nat, rest: seq<nat>)
      requires symbols == [v] + rest
      ensures symbols != [] && symbols[0] == v
    {
    }

    static lemma NextSymbol(block: Block, i: nat, t: CodeTable)
      requires 1 <= i < 64 && InRange(block)
      ensures AcSymbols(block, i) != [] && StartsWith(block, i, t, AcSymbols(block, i)[0])
    {
      hide *;
      AcNext(block, i, t);
      var n := NextNonzero(block, i);
      if n == 64 {
        StartsWithEnd(block, i, t);
      } else if n - i < 16 {
        FirstOf(AcSymbols(block, i), (n - i) * 16 + Size(block[n]), AcSymbols(block, n + 1));
        StartsWithValue(block, i, n, t);
      } else {
        FirstOf(AcSymbols(block, i), 240, AcSymbols(block, i + 16));
        StartsWithZeros(block, i, t);
      }
    }

    /** Receives the magnitude bits of a coefficient and puts it in its place. */
    method StoreValue(sz: nat, at: nat, ghost x: int)
      requires Valid() && sz == Size(x) && 1 <= sz <= 16 && MagnitudeBits(x) <= ahead && -1023 <= x <= 1023 && at < 64
      modifies this`pos, this`bits, this`bitc, this`rstdtc, this`rstn, this`eoi, this`exited, this`unread,
        this`ahead, zz
      ensures Valid() && ahead == old(ahead)[sz..] && zz[..] == old(zz[..][at := x])
    {
      hide Bits, BytesBits, Stuff, Pow2, BitLength, MagnitudeBits, Size;
      var v := ReceiveValue(sz, x);
      zz[at] := Limited(v);
    }

    /** One symbol of the AC code and the magnitude bits that go with it. */
    method DecCoefficient(t: WindowTable, i: nat, ghost block: Block, ghost ac: CodeTable, ghost rest: seq<bool>)
      returns (done: bool, next: nat)
      requires Valid() && InRange(block) && |t.symbol| == FULL && 1 <= i < 64
      requires forall v: nat :: v in AcSymbols(block, i) ==> v < 256 && Matches(ac, t, v)
      requires ahead == AcBits(block, i, ac) + rest
      requires forall j :: i <= j < 64 ==> zz[j] == 0
      modifies this`pos, this`bits, this`bitc, this`rstdtc, this`rstn, this`eoi, this`exited, this`unread,
        this`ahead, zz
      ensures Valid() && forall j :: 0 <= j < i ==> zz[j] == old(zz[j])
      ensures done ==> ahead == rest && forall j :: i <= j < 64 ==> zz[j] == block[j]
      ensures !done ==>
        && i < next <= 64 && ahead == AcBits(block, next, ac) + rest
        && (forall v: nat :: v in AcSymbols(block, next) ==> v < 256 && Matches(ac, t, v))
        && (forall j :: i <= j < next ==> zz[j] == block[j])
        && (forall j :: next <= j < 64 ==> zz[j] == 0)
    {
      hide Bits, BytesBits, Stuff, Pow2, AcBits, AcSymbols, BitLength, Matches, NextNonzero, CodeBits,
        MagnitudeBits, Size;
      NextSymbol(block, i, ac);
      ghost var v := AcSymbols(block, i)[0];
      assert v in AcSymbols(block, i);
      var rs := DecodeSymbol(t, ac, v);
      if rs == 0 {
        return true, 64;
      }
      next := i + rs / 16;
      var sz := rs % 16;
      ghost var after := AcBits(block, next + 1, ac) + rest;
      assert ahead == MagnitudeBits(block[next]) + after;
      if sz != 0 {
        StoreValue(sz, next, block[next]);
      }
      assert ahead == after;
      next := next + 1;
      done := false;
      TailSymbols(v, AcSymbols(block, next), AcSymbols(block, i));
    }

    method DecAc(t: WindowTable, ghost block: Block, ghost ac: CodeTable, ghost rest: seq<bool>)
      requires Valid() && InRange(block) && |t.symbol| == FULL
      requires forall v: nat :: v in AcSymbols(block, 1) ==> v < 256 && Matches(ac, t, v)
      requires ahead == AcBits(block, 1, ac) + rest
      requires zz[0] == block[0] && forall j :: 1 <= j < 64 ==> zz[j] == 0
      modifies this`pos, this`bits, this`bitc, this`rstdtc, this`rstn, this`eoi, this`exited, this`unread,
        this`ahead, zz
      ensures Valid() && ahead == rest && zz[..] == block
    {
      hide Bits, BytesBits, Stuff, Pow2, AcBits, AcSymbols, BitLength, Matches, NextNonzero;
      var i := 1;
      while i < 64
        invariant 1 <= i <= 64 && Valid()
        invariant ahead == AcBits(block, i, ac) + rest
        invariant forall v: nat :: v in AcSymbols(block, i) ==> v < 256 && Matches(ac, t, v)
        invariant forall j :: 0 <= j < i ==> zz[j] == block[j]
        invariant forall j :: i <= j < 64 ==> zz[j] == 0
        decreases 64 - i
      {
        var done, next := DecCoefficient(t, i, block, ac, rest);
        if done {
          break;
        }
        i := next;
      }
      AcEnd(block, ac);
    }

    /** Decodes one block: the block the bits ahead stand for. */
    method Dec(c: nat, ghost block: Block, ghost dc: CodeTable, ghost ac: CodeTable, ghost rest: seq<bool>)
      requires Valid() && c < 4 && InRange(block) && -1024 <= pdc[c] <= 1023
      requires Codable(block, pdc[c], dc, ac, windows.dc[windows.hd[c]], windows.ac[windows.ha[c]])
      requires ahead == BlockBits(block, pdc[c], dc, ac) + rest
      modifies this`pos, this`bits, this`bitc, this`rstdtc, this`rstn, this`eoi, this`exited, this`unread,
        this`ahead, pdc, zz
      ensures Valid() && ahead == rest && zz[..] == block && pdc[..] == old(pdc[..][c := block[0]])
    {
      hide Bits, BytesBits, Stuff, Pow2, AcBits, BitLength, Matches;
      var i := 1;
      while i < 64
        invariant 1 <= i <= 64 && forall j :: 1 <= j < i ==> zz[j] == 0
        modifies zz
      {
        zz[i] := 0;
        i := i + 1;
      }
      DecDc(c, block, dc, AcBits(block, 1, ac) + rest);
      DecAc(windows.Ac(c), block, ac, rest);
    }

    // ---- MCUs

    static ghost predicate MatchesAll(symbols: set<nat>, enc: CodeTable, dec: WindowTable) {
      forall v: nat :: v in symbols ==> v < 256 && Matches(enc, dec, v)
    }

    /** Encoder and decoder agree on every symbol of the alphabet. */
    ghost predicate Agreed(l: Layout, a: Alphabet)
      requires windows.Valid() && l.Valid() && a.Valid()
    {
      forall j :: 0 <= j < 4 ==>
        MatchesAll(a.dc[j], l.Dc(j), windows.Dc(j)) && MatchesAll(a.ac[j], l.Ac(j), windows.Ac(j))
    }

    lemma UsedIsCodable(zz: Block, pred: int, j: nat, l: Layout, a: Alphabet)
      requires windows.Valid() && l.Valid() && a.Valid() && Agreed(l, a) && j < 4
      requires BlockUses(zz, pred, a.dc[j], a.ac[j])
      ensures Codable(zz, pred, l.Dc(j), l.Ac(j), windows.Dc(j), windows.Ac(j))
    {
      hide AcSymbols, Matches, Size;
      assert MatchesAll(a.dc[j], l.Dc(j), windows.Dc(j)) && MatchesAll(a.ac[j], l.Ac(j), windows.Ac(j));
    }

    method DecodeBlocks(n: nat, j: nat, ghost blocks: seq<Block>, ghost l: Layout, ghost a: Alphabet,
                        ghost rest: seq<bool>) returns (res: seq<Block>)
      requires Valid() && l.Valid() && a.Valid() && Agreed(l, a) && j < 4 && |blocks| == n && -1024 <= pdc[j] <= 1023
      requires forall k :: 0 <= k < n ==> InRange(blocks[k])
      requires BlocksUse(blocks, pdc[j], a.dc[j], a.ac[j])
      requires ahead == BlocksBits(blocks, pdc[j], l.Dc(j), l.Ac(j)) + rest
      modifies this`pos, this`bits, this`bitc, this`rstdtc, this`rstn, this`eoi, this`exited, this`unread,
        this`ahead, pdc, zz
      ensures Valid() && ahead == rest && res == blocks
      ensures pdc[..] == old(pdc[..][j := LastDc(blocks, pdc[j])])
    {
      hide BlockBits, Stuff, BytesBits, Bits, Codable, BlockUses, Agreed;
      res := [];
      ghost var pdc0 := pdc[..];
      var k := 0;
      assert blocks[0..] == blocks;
      while k < n
        invariant 0 <= k <= n && Valid() && res == blocks[..k]
        invariant ahead == BlocksBits(blocks[k..], pdc[j], l.Dc(j), l.Ac(j)) + rest
        invariant BlocksUse(blocks[k..], pdc[j], a.dc[j], a.ac[j])
        invariant pdc[..] == pdc0[j := LastDc(blocks[..k], pdc0[j])]
        invariant -1024 <= pdc[j] <= 1023
      {
        assert blocks[k..][0] == blocks[k] && blocks[k..][1..] == blocks[k + 1..];
        ghost var after := BlocksBits(blocks[k + 1..], blocks[k][0], l.Dc(j), l.Ac(j)) + rest;
        assert ahead == BlockBits(blocks[k], pdc[j], l.Dc(j), l.Ac(j)) + after;
        UsedIsCodable(blocks[k], pdc[j], j, l, a);
        Dec(j, blocks[k], l.Dc(j), l.Ac(j), after);
        res := res + [zz[..]];
        k := k + 1;
      }
      assert blocks[..k] == blocks && blocks[k..] == [];
    }

    /** nc lists the number of blocks of each component. */
    method DecodeMcu(nc: seq<nat>, ghost mcu: Mcu, ghost l: Layout, ghost a: Alphabet, ghost rest: seq<bool>)
      returns (res: Mcu)
      requires Valid() && l.Valid() && a.Valid() && Agreed(l, a) && McuInRange(mcu) && PredictorsInRange(pdc[..])
      requires |nc| == |mcu| && forall j :: 0 <= j < |nc| ==> nc[j] == |mcu[j]|
      requires McuUses(mcu, pdc[..], a)
      requires ahead == McuBits(mcu, 0, pdc[..], l) + rest
      modifies this`pos, this`bits, this`bitc, this`rstdtc, this`rstn, this`eoi, this`exited, this`unread,
        this`ahead, pdc, zz
      ensures Valid() && ahead == rest && res == mcu && pdc[..] == NextPredictors(mcu, old(pdc[..]))
    {
      hide BlocksBits, Stuff, BytesBits, Bits, InRange, BlocksUse, Agreed;
      res := [];
      ghost var pdc0 := pdc[..];
      var j := 0;
      while j < |nc|
        invariant 0 <= j <= |nc| && Valid() && res == mcu[..j]
        invariant ahead == McuBits(mcu, j, pdc0, l) + rest
        invariant forall c :: 0 <= c < 4 ==> pdc[c] == if c < j then LastDc(mcu[c], pdc0[c]) else pdc0[c]
      {
        ghost var after := McuBits(mcu, j + 1, pdc0, l) + rest;
        assert ahead == BlocksBits(mcu[j], pdc0[j], l.Dc(j), l.Ac(j)) + after;
        var blocks := DecodeBlocks(nc[j], j, mcu[j], l, a, after);
        res := res + [blocks];
        j := j + 1;
      }
    }

    // ---- the scan

    /** The reader stands before a segment, with an empty buffer. */
    ghost predicate AtSegment(seg: seq<bool>, m: byte, rest: seq<byte>)
      reads this
    {
      && pos <= |inp| && bitc == 0 && !rstdtc && !eoi && !exited && pdc.Length == 4 && zz.Length == 64
        && windows.Valid()
      && IsMarker(m) && (m == EOI ==> rest == []) && inp[pos..] == Close(seg) + [255, m] + rest
    }

    ghost method StartSegment(seg: seq<bool>, m: byte, rest: seq<byte>)
      requires AtSegment(seg, m, rest)
      modifies this`ahead, this`unread, this`mark, this`tail
      ensures Valid() && mark == m && tail == rest && bitc == 0 && !rstdtc
      ensures ahead == seg + Ones(PadLength(|seg|))
    {
      unread := Pack(Padded8(seg));
      mark, tail := m, rest;
      ahead := Padded8(seg);
      assert Bits(bits, 0) + BytesBits(unread) == ahead;
    }

    /** After the last MCU of an interval only padding is ahead. If the look-ahead has not
        swallowed the marker, then it is the next thing in the input. */
    lemma OnlyPaddingLeft()
      requires Valid() && |ahead| < 8 && !rstdtc && !eoi
      ensures pos + 2 <= |inp| && inp[pos] == 255 && inp[pos + 1] == mark && inp[pos + 2..] == tail
    {
      assert unread == [];
      assert inp[pos..][2..] == tail;
      assert inp[pos] == inp[pos..][0] && inp[pos + 1] == inp[pos..][1];
      assert inp[pos + 2..] == inp[pos..][2..];
    }

    /** The restart marker is still unread: it is read here. */
    method ReadMarker(rstc: nat) returns (expected: bool)
      requires pos <= |inp| && pdc.Length == 4
      modifies this`pos, this`bitc, this`exited, pdc
      ensures pos <= |inp|
      ensures match FindMarker(inp, old(pos))
              case Restart(n, p) => pos == p && expected == (n == rstc) && bitc == 0 && pdc[..] == ZEROS
                && exited == old(exited)
              case _ => exited
    {
      var k := Fgetc();
      if k != 255 {
        exited := true;
        return false;
      }
      k := Fgetc();
      while k == 255
        invariant pos <= |inp| && old(pos) < pos
        invariant if k == -1 then pos == |inp| == SkipFill(inp, old(pos) + 1)
                  else k == inp[pos - 1] && old(pos) + 2 <= pos && SkipFill(inp, old(pos) + 1) == SkipFill(inp, pos - 1)
        modifies this`pos
        decreases |inp| - pos, if k == 255 then 1 else 0
      {
        k := Fgetc();
      }
      if 208 <= k <= 215 {
        expected := k % 8 == rstc;
      } else {
        exited := true;
        return false;
      }
      pdc[0], pdc[1], pdc[2], pdc[3] := 0, 0, 0, 0;
      bitc := 0;
    }

    static ghost predicate BitsRemain(mcus: seq<Mcu>, i: nat, e: nat, pdc: Predictors, ahead: seq<bool>,
                                      l: Layout, pad: nat)
      requires i <= e <= |mcus| && ValidMcus(mcus) && l.Valid()
    {
      pad < 8 && ahead == McusBits(mcus[i..e], pdc, l) + Ones(pad)
    }

    static ghost predicate SymbolsPresent(mcus: seq<Mcu>, i: nat, e: nat, pdc: Predictors, restart: bool,
                                          nrst: nat, a: Alphabet)
      requires i <= e <= |mcus| && a.Valid()
    {
      McusUse(mcus[i..e], pdc, a) && (e < |mcus| ==> ScanUses(mcus, e, restart, nrst, a))
    }

    /** An interval is in progress: the MCUs from i to e are still to be decoded from the bits
        ahead, and the marker at the end is the one the encoder put there. */
    ghost predicate Inside(mcus: seq<Mcu>, i: nat, e: nat, restart: bool, nrst: nat, l: Layout, a: Alphabet,
                           rstc: nat, pad: nat)
      requires i <= e <= |mcus| && ValidMcus(mcus) && l.Valid() && a.Valid() && rstc < 8 && windows.Valid()
      reads this, pdc
    {
      && Valid() && PredictorsInRange(pdc[..])
      && BitsRemain(mcus, i, e, pdc[..], ahead, l, pad)
      && SymbolsPresent(mcus, i, e, pdc[..], restart, nrst, a)
      && mark == MarkerAfter(e, |mcus|, rstc) && tail == BytesAfter(mcus, e, restart, nrst, l, rstc)
    }

    static lemma ScanUsesStep(mcus: seq<Mcu>, start: nat, restart: bool, nrst: nat, a: Alphabet)
      requires a.Valid() && start <= |mcus| && ScanUses(mcus, start, restart, nrst, a)
      ensures var e := IntervalEnd(start, |mcus|, restart, nrst);
        McusUse(mcus[start..e], ZEROS, a) && (e < |mcus| ==> ScanUses(mcus, e, restart, nrst, a))
    {
    }

    /** The reader has just passed a restart marker or not started yet. */
    ghost method StartInterval(mcus: seq<Mcu>, s: nat, restart: bool, nrst: nat, l: Layout, a: Alphabet, rstc: nat)
      returns (pad: nat)
      requires pos <= |inp| && bitc == 0 && !rstdtc && !eoi && !exited
      requires pdc.Length == 4 && zz.Length == 64 && windows.Valid() && pdc[..] == ZEROS
      requires s <= |mcus| && ValidMcus(mcus) && l.Valid() && a.Valid() && rstc < 8
        && ScanUses(mcus, s, restart, nrst, a)
      requires inp[pos..] == Frame(Segments(mcus, s, restart, nrst, l), rstc)
      modifies this`ahead, this`unread, this`mark, this`tail
      ensures Inside(mcus, s, IntervalEnd(s, |mcus|, restart, nrst), restart, nrst, l, a, rstc, pad)
    {
      hide McusBits, Segments, Frame, Close, Stuff, BytesBits, Bits, McusUse, ScanUses, Ones;
      var e := IntervalEnd(s, |mcus|, restart, nrst);
      var seg := McusBits(mcus[s..e], ZEROS, l);
      FrameStep(mcus, s, restart, nrst, l, rstc);
      ScanUsesStep(mcus, s, restart, nrst, a);
      assert inp[pos..] == Close(seg) + [255, MarkerAfter(e, |mcus|, rstc)]
        + BytesAfter(mcus, e, restart, nrst, l, rstc);
      StartSegment(seg, MarkerAfter(e, |mcus|, rstc), BytesAfter(mcus, e, restart, nrst, l, rstc));
      pad := PadLength(|seg|);
    }

    static lemma MarkerIsNext(inp: seq<byte>, pos: nat, m: byte)
      requires pos + 2 <= |inp| && inp[pos] == 255 && inp[pos + 1] == m && RST0 <= m <= RST0 + 7
      ensures FindMarker(inp, pos) == Restart(m - RST0, pos + 2)
    {
    }

    /** After the MCU that ends an interval: whether or not the look-ahead has swallowed the
        restart marker, the reader ends up behind it, with cleared predictors, an empty buffer
        and the marker number confirmed. */
    method PassMarker(rstc: nat, ghost mcus: seq<Mcu>, ghost e: nat, ghost restart: bool, ghost nrst: nat,
                      ghost l: Layout, ghost a: Alphabet, ghost pad: nat)
      returns (expected: bool, ghost pad': nat)
      requires e < |mcus| && ValidMcus(mcus) && l.Valid() && a.Valid() && rstc < 8 && windows.Valid()
      requires Inside(mcus, e, e, restart, nrst, l, a, rstc, pad)
      modifies this, pdc
      ensures expected && bitc == 0 && !rstdtc
      ensures pos <= |inp| && inp[pos..] == Frame(Segments(mcus, e, restart, nrst, l), (rstc + 1) % 8)
      ensures Inside(mcus, e, IntervalEnd(e, |mcus|, restart, nrst), restart, nrst, l, a, (rstc + 1) % 8, pad')
    {
      hide McusBits, Segments, Frame, Close, Stuff, BytesBits, Bits, McusUse, ScanUses, Ones;
      NoMcusNoBits(mcus, e, pdc[..], l);
      if rstdtc {
        expected := rstn == rstc;
        pdc[0], pdc[1], pdc[2], pdc[3] := 0, 0, 0, 0;
        bitc := 0;
        rstdtc := false;
      } else {
        OnlyPaddingLeft();
        MarkerIsNext(inp, pos, mark);
        expected := ReadMarker(rstc);
      }
      assert pdc[..] == ZEROS;
      pad' := StartInterval(mcus, e, restart, nrst, l, a, (rstc + 1) % 8);
    }

    /** A swallowed restart marker means that the interval is not the last one. */
    lemma WhoIsAhead(mcus: seq<Mcu>, i: nat, e: nat, restart: bool, nrst: nat, l: Layout, a: Alphabet,
                     rstc: nat, pad: nat)
      requires i <= e <= |mcus| && ValidMcus(mcus) && l.Valid() && a.Valid() && rstc < 8 && windows.Valid()
      requires Inside(mcus, i, e, restart, nrst, l, a, rstc, pad)
      ensures rstdtc ==> e < |mcus|
      ensures !exited
    {
      hide McusBits, McusUse, ScanUses, Ones, BytesAfter, Stuff, BytesBits, Bits;
    }

    static ghost predicate HasShape(mcu: Mcu, nc: seq<nat>) {
      |nc| == |mcu| && forall j :: 0 <= j < |nc| ==> nc[j] == |mcu[j]|
    }

    static lemma McusUseStep(mcus: seq<Mcu>, i: nat, e: nat, pdc: Predictors, a: Alphabet)
      requires a.Valid() && i < e <= |mcus| && McusUse(mcus[i..e], pdc, a)
      ensures McuUses(mcus[i], pdc, a) && McusUse(mcus[i + 1..e], NextPredictors(mcus[i], pdc), a)
    {
      assert mcus[i..e][0] == mcus[i] && mcus[i..e][1..] == mcus[i + 1..e];
    }

    method DecodeNext(nc: seq<nat>, ghost mcus: seq<Mcu>, ghost i: nat, ghost e: nat, ghost restart: bool,
                      ghost nrst: nat,
                      ghost l: Layout, ghost a: Alphabet, ghost rstc: nat, ghost pad: nat) returns (res: Mcu)
      requires i < e <= |mcus| && ValidMcus(mcus) && McusInRange(mcus) && l.Valid() && a.Valid() && rstc < 8
      requires windows.Valid() && Agreed(l, a)
      requires Inside(mcus, i, e, restart, nrst, l, a, rstc, pad) && HasShape(mcus[i], nc)
      modifies this`pos, this`bits, this`bitc, this`rstdtc, this`rstn, this`eoi, this`exited, this`unread,
        this`ahead, pdc, zz
      ensures res == mcus[i] && Inside(mcus, i + 1, e, restart, nrst, l, a, rstc, pad)
    {
      hide McuBits, McusBits, InRange, McuUses, McusUse, ScanUses, Ones, BytesAfter, Stuff, BytesBits, Bits, Agreed;
      McusBitsStep(mcus, i, e, pdc[..], l);
      McusUseStep(mcus, i, e, pdc[..], a);
      NextPredictorsInRange(mcus[i], pdc[..]);
      ghost var after := McusBits(mcus[i + 1..e], NextPredictors(mcus[i], pdc[..]), l) + Ones(pad);
      assert ahead == McuBits(mcus[i], 0, pdc[..], l) + after;
      res := DecodeMcu(nc, mcus[i], l, a, after);
    }

    /** The whole scan: exactly the blocks that were encoded come back, no error exit is taken,
        and every restart marker is found with the expected number. */
    method DecodeScan(nmcu: nat, nc: seq<nat>, restart: bool, nrst: nat, ghost mcus: seq<Mcu>, ghost l: Layout,
                      ghost a: Alphabet)
      returns (res: seq<Mcu>, warned: bool)
      requires pos == 0 && bitc == 0 && !rstdtc && !eoi && !exited
      requires pdc.Length == 4 && pdc[..] == ZEROS && zz.Length == 64 && windows.Valid()
      requires l.Valid() && a.Valid() && Agreed(l, a) && McusInRange(mcus) && ValidMcus(mcus)
        && ScanUses(mcus, 0, restart, nrst, a)
      requires nmcu == |mcus| && forall i :: 0 <= i < nmcu ==> HasShape(mcus[i], nc)
      requires inp == ScanBytes(mcus, restart, nrst, l)
      modifies this, pdc, zz
      ensures res == mcus && !warned && !exited
    {
      hide McusBits, Segments, Frame, InRange, McusUse, ScanUses, Ones, Inside, HasShape, Agreed;
      res, warned := [], false;
      var rstcnt, rstc, i := nrst, 0, 0;
      ghost var n, s, e := |mcus|, 0, IntervalEnd(0, |mcus|, restart, nrst);
      assert inp[0..] == inp;
      ghost var pad := StartInterval(mcus, 0, restart, nrst, l, a, 0);
      while i < nmcu
        invariant 0 <= s <= i <= e <= n && 0 <= rstc < 8 && rstcnt >= 0 && !warned
        invariant e == IntervalEnd(s, n, restart, nrst) && (i == e ==> i == n)
        invariant restart && i < n ==> rstcnt == nrst - (i - s)
        invariant res == mcus[..i]
        invariant Inside(mcus, i, e, restart, nrst, l, a, rstc, pad)
      {
        var mcu := DecodeNext(nc, mcus, i, e, restart, nrst, l, a, rstc, pad);
        res := res + [mcu];
        WhoIsAhead(mcus, i + 1, e, restart, nrst, l, a, rstc, pad);
        if rstdtc && rstcnt == 0 {
          var expected;
          expected, pad := PassMarker(rstc, mcus, e, restart, nrst, l, a, pad);
          warned := warned || !expected;
          rstcnt := nrst;
          rstc := (rstc + 1) % 8;
          s, e := e, IntervalEnd(e, n, restart, nrst);
        } else if restart && i != nmcu - 1 {
          if rstcnt != 0 {
            rstcnt := rstcnt - 1;
          } else {
            var expected;
            expected, pad := PassMarker(rstc, mcus, e, restart, nrst, l, a, pad);
            warned := warned || !expected;
            rstcnt := nrst;
            rstc := (rstc + 1) % 8;
            s, e := e, IntervalEnd(e, n, restart, nrst);
          }
        }
        i := i + 1;
      }
      WhoIsAhead(mcus, i, e, restart, nrst, l, a, rstc, pad);
      assert mcus[..n] == mcus;
    }
  }
}
