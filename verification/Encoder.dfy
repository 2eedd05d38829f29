/** The entropy encoder: a bit buffer in a 32-bit word, byte stuffing, the block coder, and the
    loop over MCUs with its restart counters. */
module EntropyEncoder {
  import opened Words
  import opened Coefficients
  import opened CodecTables
  import opened Framing
  import opened ScanCoding
  import opened ScanLayout

  class Encoder {
    var bits: int32
    var bitc: nat
    var out: seq<byte>
    const pdc: array<int>
    const zz: array<int>

    const layout: Layout

    ghost var base: seq<byte> // output of the segments that are complete
    ghost var data: seq<byte> // whole bytes of the current segment, before stuffing
    ghost var seg: seq<bool>  // everything written to the current segment

    static ghost predicate ValidTable(t: CodeTable, n: nat) {
      |t.code| == |t.len| == n && forall v :: 0 <= v < n ==> t.len[v] <= 16
    }

    ghost predicate ValidTables() {
      && layout.Valid()
      && (forall t :: 0 <= t < 2 ==> ValidTable(layout.dc[t], 16) && ValidTable(layout.ac[t], 256))
    }

    ghost predicate Valid()
      reads this
    {
      && bitc <= 7
      && out == base + Stuff(data)
      && seg == BytesBits(data) + Bits(bits, bitc)
      && pdc.Length == 4 && zz.Length == 64 && ValidTables()
    }

    constructor (layout: Layout)
      requires layout.Valid()
      requires forall t :: 0 <= t < 2 ==> ValidTable(layout.dc[t], 16) && ValidTable(layout.ac[t], 256)
      ensures Valid() && this.layout == layout && fresh(pdc) && fresh(zz)
      ensures pdc[..] == ZEROS && out == [] && base == [] && seg == []
    {
      bits, bitc, out := 0, 0, [];
      pdc := new int[4](_ => 0);
      zz := new int[64](_ => 0);
      this.layout := layout;
      base, data, seg := [], [], [];
    }

    /** Writes a byte, stuffed. */
    method Bout(b: int)
      modifies this`out, this`data
      ensures out == old(out) + StuffByte(Mask(b, 8)) && data == old(data) + [Mask(b, 8)]
    {
      Pow2Values();
      var v: byte := Mask(b, 8);
      out := out + [v];
      if v == 255 {
        out := out + [0];
      }
      data := data + [v];
    }

    /** Writing the 8 bits above the low k bits of the buffer moves them to the output. */
    static lemma TopByte(bits: int32, k: nat, data: seq<byte>, out: seq<byte>, base: seq<byte>)
      requires out == base + Stuff(data)
      ensures var b := Mask(Shr(bits, k), 8);
        && b < 256
        && out + StuffByte(b) == base + Stuff(data + [b])
        && BytesBits(data + [b]) + Bits(bits, k) == BytesBits(data) + Bits(bits, k + 8)
    {
      Pow2Values();
      hide Bits, Pow2;
      var b: byte := Mask(Shr(bits, k), 8);
      StuffSnoc(data, b);
      BytesBitsSnoc(data, b);
      BitsMask(Shr(bits, k), 8);
      BitsSplit(bits, 8, k);
    }

    /** Writes the whole bytes among the buffered bits. */
    method Drain()
      requires bitc <= 23 && out == base + Stuff(data) && seg == BytesBits(data) + Bits(bits, bitc)
      requires pdc.Length == 4 && zz.Length == 64 && ValidTables()
      modifies this`bitc, this`out, this`data
      ensures Valid()
    {
      hide Bits, Stuff, Pow2, BytesBits;
      var nb := bitc / 8;
      bitc := bitc % 8;
      if nb == 2 {
        TopByte(bits, bitc + 8, data, out, base);
        Bout(Shr(bits, bitc + 8));
      }
      if nb >= 1 {
        TopByte(bits, bitc, data, out, base);
        Bout(Shr(bits, bitc));
      }
    }

    /** Appends the low sz bits of x to the segment; at most 7 bits stay in the buffer. */
    method Code(x: int, sz: nat)
      requires Valid() && sz <= 16
      modifies this`bits, this`bitc, this`out, this`data, this`seg
      ensures Valid() && seg == old(seg) + Bits(x, sz)
    {
      hide Bits, Stuff, Pow2, BytesBits;
      var m := Mask(x, sz);
      BitsMask(x, sz);
      ShiftInBits(bits, bitc, m, sz);
      bits := ShiftIn(bits, m, sz);
      bitc := bitc + sz;
      seg := seg + Bits(x, sz);
      Drain();
    }

    static lemma PadLast(w: int32, data: seq<byte>, whole: seq<bool>, part: seq<bool>, n: nat, seg: seq<bool>)
      requires seg == whole + part && |whole| % 8 == 0 && |part| + n == 8 && 1 <= n <= 7
      requires BytesBits(data) + Bits(w, 0) == whole + (part + Ones(n))
      ensures BytesBits(data) == Padded8(seg)
    {
      hide Bits, BytesBits, Ones;
      assert Bits(w, 0) == [];
      assert PadLength(|seg|) == n;
      assert whole + (part + Ones(n)) == seg + Ones(n);
    }

    static lemma ShiftByZero(w: int32)
      ensures Shr(w, 0) == w
    {
      assert Pow2(0) == 1;
    }

    static lemma LastByte(bits: int32, c: nat, data: seq<byte>, seg: seq<bool>, out: seq<byte>, base: seq<byte>)
      requires 1 <= c <= 7 && out == base + Stuff(data) && seg == BytesBits(data) + Bits(bits, c)
      ensures var b := Mask(ShiftIn(bits, Pow2(8 - c) - 1, 8 - c), 8);
        && b < 256
        && out + StuffByte(b) == base + Stuff(data + [b])
        && BytesBits(data + [b]) == Padded8(seg)
    {
      hide Bits, Stuff, Pow2, BytesBits, Padded8, ShiftIn;
      var n := 8 - c;
      OnesAreBits(n);
      ShiftInBits(bits, c, Pow2(n) - 1, n);
      var w := ShiftIn(bits, Pow2(n) - 1, n);
      TopByte(w, 0, data, out, base);
      ShiftByZero(w);
      PadLast(w, data + [Mask(w, 8)], BytesBits(data), Bits(bits, c), n, seg);
    }

    static lemma WholeBytes(bits: int32, data: seq<byte>, seg: seq<bool>)
      requires seg == BytesBits(data) + Bits(bits, 0)
      ensures BytesBits(data) == Padded8(seg)
    {
      hide BytesBits;
      assert PadLength(|seg|) == 0;
    }

    static lemma EmptySegment(w: int32)
      ensures Stuff([]) == [] && BytesBits([]) + Bits(w, 0) == []
    {
    }

    /** Fills the last byte of the segment with ones, which completes it. */
    method Flush()
      requires Valid()
      modifies this`bits, this`bitc, this`out, this`data, this`base, this`seg
      ensures Valid() && out == base == old(base) + Close(old(seg)) && seg == []
    {
      hide Bits, Stuff, Pow2, BytesBits, Pack, Padded8;
      if bitc != 0 {
        LastByte(bits, bitc, data, seg, out, base);
        var n := 8 - bitc;
        bits := ShiftIn(bits, Pow2(n) - 1, n);
        Bout(bits);
        bitc := 0;
      } else {
        WholeBytes(bits, data, seg);
      }
      PackUnique(data, Padded8(seg));
      base, data, seg := out, [], [];
      EmptySegment(bits);
    }

    /** A marker between segments; it is not stuffed. */
    method PutMarker(b: byte)
      requires Valid() && seg == [] && out == base
      modifies this`out, this`base
      ensures Valid() && out == base == old(base) + [255, b]
    {
      assert data == [];
      out := out + [255];
      out := out + [b];
      base := out;
    }

    /** The coder refuses a block for which a table lacks a code of the needed size. */
    static ghost predicate Encodable(zz: Block, pred: int, dc: CodeTable, ac: CodeTable)
      requires |dc.len| == 16 && |ac.len| == 256
    {
      && Size(zz[0] - pred) < 16 && dc.len[Size(zz[0] - pred)] != 0
      && forall i :: 1 <= i < 64 && zz[i] != 0 ==> Size(zz[i]) < 16 && ac.len[Size(zz[i])] != 0
    }

    static predicate Fits16(x: int) {
      -0x8000 < x < 0x8000
    }

    static lemma PrioOf16(x: int)
      requires Fits16(x)
      ensures Prio(x) == Size(x) <= 15
    {
      PrioIsSize(x);
      assert Pow2(15) == 32768;
      SizeRange(x, 15);
    }

    /** One symbol of the AC code, for a run of zeros from i to n. */
    static lemma AcStep(zz: Block, i: nat, n: nat, t: CodeTable)
      requires i <= n <= 64 && i < 64 && (forall j :: i <= j < n ==> zz[j] == 0) && (n < 64 ==> zz[n] != 0)
      ensures AcBits(zz, i, t) ==
              if n == 64 then CodeBits(t, EOB)
              else if n - i >= 16 then CodeBits(t, ZRL) + AcBits(zz, i + 16, t)
              else CodeBits(t, (n - i) * 16 + Size(zz[n])) + MagnitudeBits(zz[n]) + AcBits(zz, n + 1, t)
    {
      hide CodeBits, MagnitudeBits, NextNonzero, Size;
      NextNonzeroAt(zz, i, n);
    }

    static lemma Assoc(a: seq<bool>, b: seq<bool>, c: seq<bool>, d: seq<bool>)
      ensures a + (b + c) == (a + b) + c
      ensures a + (b + c + d) == ((a + b) + c) + d
    {
      assert a + (b + c) == (a + b) + c;
    }

    method EncZeros(t: CodeTable, run: nat, i: nat, ghost block: Block) returns (zc: nat)
      requires Valid() && ValidTable(t, 256) && run < i < 64 && block[i] != 0
      requires forall j :: i - run <= j < i ==> block[j] == 0
      modifies this`bits, this`bitc, this`out, this`data, this`seg
      ensures Valid() && zc < 16 && zc <= run
      ensures seg + AcBits(block, i - zc, t) == old(seg) + AcBits(block, i - run, t)
    {
      hide Bits, BytesBits, Stuff, AcBits, NextNonzero;
      zc := run;
      while zc >= 16
        invariant 0 <= zc <= run
        invariant Valid() && seg + AcBits(block, i - zc, t) == old(seg) + AcBits(block, i - run, t)
      {
        AcStep(block, i - zc, i, t);
        Assoc(seg, CodeBits(t, ZRL), AcBits(block, i - zc + 16, t), []);
        Code(t.code[240], t.len[240]);
        zc := zc - 16;
      }
    }

    /** A nonzero coefficient after zc zeros: ZRLs as long as the run is 16 or more, then the
        run/size symbol and the magnitude. */
    method EncNonzero(t: CodeTable, run: nat, i: nat, ghost block: Block) returns (ok: bool)
      requires Valid() && ValidTable(t, 256) && run < i < 64 && zz[i] == block[i] != 0 && Fits16(block[i])
      requires forall j :: i - run <= j < i ==> block[j] == 0
      modifies this`bits, this`bitc, this`out, this`data, this`seg, zz
      ensures Valid()
      ensures ok <==> Size(block[i]) < 16 && t.len[Size(block[i])] != 0
      ensures ok ==> seg + AcBits(block, i + 1, t) == old(seg) + AcBits(block, i - run, t)
      ensures forall j :: 0 <= j < 64 && j != i ==> zz[j] == old(zz[j])
    {
      hide Bits, BytesBits, Stuff, AcBits, NextNonzero, BitLength, Prio;
      ghost var total := seg + AcBits(block, i - run, t);
      var zc := EncZeros(t, run, i, block);
      PrioOf16(zz[i]);
      var sz := Prio(zz[i]);
      var rs := zc * 16 + sz;
      if t.len[sz] == 0 {
        return false;
      }
      AcStep(block, i - zc, i, t);
      Assoc(seg, CodeBits(t, rs), MagnitudeBits(block[i]), AcBits(block, i + 1, t));
      Code(t.code[rs], t.len[rs]);
      if zz[i] < 0 {
        zz[i] := zz[i] - 1;
      }
      Code(zz[i], sz);
      return true;
    }

    static lemma AcEnd(zz: Block, t: CodeTable)
      ensures AcBits(zz, 64, t) == []
    {
    }

    method EncAc(t: CodeTable) returns (ok: bool)
      requires Valid() && ValidTable(t, 256)
      requires forall i :: 1 <= i < 64 ==> Fits16(zz[i])
      modifies this`bits, this`bitc, this`out, this`data, this`seg, zz
      ensures Valid()
      ensures ok <==> forall i :: 1 <= i < 64 && old(zz[i]) != 0 ==>
        Size(old(zz[i])) < 16 && t.len[Size(old(zz[i]))] != 0
      ensures ok ==> seg == old(seg) + AcBits(old(zz[..]), 1, t)
    {
      hide Bits, BytesBits, Stuff, AcBits, NextNonzero, BitLength, Prio;
      ghost var block: Block := zz[..];
      ghost var total := seg + AcBits(block, 1, t);
      var zc, i := 0, 1;
      while i < 64
        invariant 1 <= i <= 64 && Valid()
        invariant 0 <= zc < i && forall j :: i - zc <= j < i ==> block[j] == 0
        invariant forall j :: i <= j < 64 ==> zz[j] == block[j] && Fits16(block[j])
        invariant forall j :: 1 <= j < i && block[j] != 0 ==> Size(block[j]) < 16 && t.len[Size(block[j])] != 0
        invariant seg + AcBits(block, i - zc, t) == total
      {
        if zz[i] != 0 {
          var found := EncNonzero(t, zc, i, block);
          if !found {
            return false;
          }
          zc := 0;
        } else {
          zc := zc + 1;
        }
        i := i + 1;
      }
      AcEnd(block, t);
      if zc != 0 {
        AcStep(block, 64 - zc, 64, t);
        Code(t.code[0], t.len[0]);
      }
      return true;
    }

    /** Codes one block; negative coefficients are left decremented in zz. */
    method Enc(c: nat) returns (ok: bool)
      requires Valid() && c < 4
      requires forall i :: 1 <= i < 64 ==> Fits16(zz[i])
      requires Fits16(zz[0] - pdc[c])
      modifies this`bits, this`bitc, this`out, this`data, this`seg, pdc, zz
      ensures Valid()
      ensures ok <==> Encodable(old(zz[..]), old(pdc[c]), layout.dc[layout.hd[c]], layout.ac[layout.ha[c]])
      ensures ok ==>
        seg == old(seg) + BlockBits(old(zz[..]), old(pdc[c]), layout.dc[layout.hd[c]], layout.ac[layout.ha[c]])
      ensures pdc[..] == old(pdc[..][c := zz[0]])
    {
      hide Bits, BytesBits, Stuff, AcBits, BitLength, Prio;
      ghost var block: Block, pred := zz[..], pdc[c];
      var diff := zz[0] - pdc[c];
      pdc[c] := zz[0];
      var t := layout.Dc(c);
      PrioOf16(diff);
      var sz := Prio(diff);
      if t.len[sz] == 0 {
        return false;
      }
      Code(t.code[sz], t.len[sz]);
      if diff < 0 {
        diff := diff - 1;
      }
      Code(diff, sz);
      assert seg == old(seg) + DcBits(block[0] - pred, t);
      Assoc(old(seg), DcBits(block[0] - pred, t), AcBits(block, 1, layout.Ac(c)), []);
      ok := EncAc(layout.Ac(c));
    }

    /** The codes every in-range block may need are there. */
    ghost predicate Complete() {
      ValidTables() && forall t, v :: 0 <= t < 2 ==>
        && (0 <= v <= 11 ==> layout.dc[t].len[v] != 0)
        && (1 <= v <= 10 ==> layout.ac[t].len[v] != 0)
    }

    lemma InRangeIsEncodable(zz: Block, pred: int, c: nat)
      requires Complete() && c < 4 && InRange(zz) && -1024 <= pred <= 1023
      ensures Encodable(zz, pred, layout.Dc(c), layout.Ac(c))
    {
      assert Pow2(11) == 2048 && Pow2(10) == 1024;
      SizeRange(zz[0] - pred, 11);
      forall i | 1 <= i < 64 && zz[i] != 0
        ensures 1 <= Size(zz[i]) <= 10
      {
        SizeRange(zz[i], 10);
      }
    }

    method LoadBlock(b: Block)
      requires zz.Length == 64
      modifies zz
      ensures zz[..] == b
    {
      var i := 0;
      while i < 64
        invariant 0 <= i <= 64 && zz[..i] == b[..i]
      {
        zz[i] := b[i];
        i := i + 1;
      }
    }

    static lemma BlockFits16(zz: Block, pred: int)
      requires InRange(zz) && -1024 <= pred <= 1023
      ensures -1024 <= zz[0] <= 1023 && Fits16(zz[0] - pred) && forall i :: 1 <= i < 64 ==> Fits16(zz[i])
    {
    }

    /** The blocks of one component of an MCU. */
    method EncodeBlocks(blocks: seq<Block>, j: nat) returns (ok: bool)
      requires Valid() && Complete() && j < 4 && -1024 <= pdc[j] <= 1023
      requires forall k :: 0 <= k < |blocks| ==> InRange(blocks[k])
      modifies this`bits, this`bitc, this`out, this`data, this`seg, pdc, zz
      ensures Valid() && ok
      ensures seg == old(seg) + BlocksBits(blocks, old(pdc[j]), layout.Dc(j), layout.Ac(j))
      ensures pdc[..] == old(pdc[..][j := LastDc(blocks, pdc[j])])
    {
      hide BlockBits, Stuff, BytesBits, Bits, Encodable, InRange;
      ghost var total := seg + BlocksBits(blocks, pdc[j], layout.Dc(j), layout.Ac(j));
      ghost var pdc0 := pdc[..];
      var k := 0;
      assert blocks[0..] == blocks;
      while k < |blocks|
        invariant 0 <= k <= |blocks| && Valid()
        invariant seg + BlocksBits(blocks[k..], pdc[j], layout.Dc(j), layout.Ac(j)) == total
        invariant pdc[..] == pdc0[j := LastDc(blocks[..k], pdc0[j])]
        invariant -1024 <= pdc[j] <= 1023
      {
        assert blocks[k..][0] == blocks[k] && blocks[k..][1..] == blocks[k + 1..];
        Assoc(seg, BlockBits(blocks[k], pdc[j], layout.Dc(j), layout.Ac(j)),
              BlocksBits(blocks[k + 1..], blocks[k][0], layout.Dc(j), layout.Ac(j)), []);
        LoadBlock(blocks[k]);
        InRangeIsEncodable(blocks[k], pdc[j], j);
        BlockFits16(blocks[k], pdc[j]);
        ok := Enc(j);
        if !ok {
          return;
        }
        k := k + 1;
      }
      assert blocks[..k] == blocks && blocks[k..] == [];
      return true;
    }

    method EncodeMcu(mcu: Mcu) returns (ok: bool)
      requires Valid() && Complete() && McuInRange(mcu) && PredictorsInRange(pdc[..])
      modifies this`bits, this`bitc, this`out, this`data, this`seg, pdc, zz
      ensures Valid() && ok
      ensures seg == old(seg) + McuBits(mcu, 0, old(pdc[..]), layout)
      ensures pdc[..] == NextPredictors(mcu, old(pdc[..]))
    {
      hide BlocksBits, Stuff, BytesBits, Bits, InRange;
      ghost var pdc0 := pdc[..];
      ghost var total := seg + McuBits(mcu, 0, pdc0, layout);
      var j := 0;
      while j < |mcu|
        invariant 0 <= j <= |mcu| && Valid()
        invariant seg + McuBits(mcu, j, pdc0, layout) == total
        invariant forall c :: 0 <= c < 4 ==> pdc[c] == if c < j then LastDc(mcu[c], pdc0[c]) else pdc0[c]
      {
        Assoc(seg, BlocksBits(mcu[j], pdc0[j], layout.Dc(j), layout.Ac(j)), McuBits(mcu, j + 1, pdc0, layout), []);
        ok := EncodeBlocks(mcu[j], j);
        j := j + 1;
      }
      return true;
    }

    /** Completes the segment and puts a marker after it. */
    method EndSegment(marker: byte, ghost rest: seq<byte>)
      requires Valid()
      modifies this`bits, this`bitc, this`out, this`data, this`base, this`seg
      ensures Valid() && seg == [] && out == base
      ensures base + rest == old(base) + (Close(old(seg)) + ([255, marker] + rest))
      ensures rest == [] ==> base == old(base) + (Close(old(seg)) + [255, marker])
    {
      hide Close, Stuff, BytesBits, Bits;
      Flush();
      PutMarker(marker);
    }

    /** After the MCUs before i, in the interval from s: its bits are in the segment, and what the
        remaining intervals make is what is missing from the scan. */
    ghost predicate Written(mcus: seq<Mcu>, s: nat, i: nat, restart: bool, nrst: nat, rstc: nat)
      requires ValidMcus(mcus) && layout.Valid() && pdc.Length == 4 && rstc < 8
      reads this, pdc
    {
      && s <= |mcus| && s <= i <= IntervalEnd(s, |mcus|, restart, nrst)
      && PredictorsInRange(pdc[..])
      && seg + McusBits(mcus[i..IntervalEnd(s, |mcus|, restart, nrst)], pdc[..], layout)
         == McusBits(mcus[s..IntervalEnd(s, |mcus|, restart, nrst)], ZEROS, layout)
      && base + Frame(Segments(mcus, s, restart, nrst, layout), rstc) == ScanBytes(mcus, restart, nrst, layout)
    }

    /** Codes the next MCU of an interval. */
    method EncodeNext(mcus: seq<Mcu>, ghost s: nat, i: nat, ghost restart: bool, ghost nrst: nat, ghost rstc: nat)
      requires Valid() && Complete() && McusInRange(mcus) && ValidMcus(mcus) && rstc < 8
      requires Written(mcus, s, i, restart, nrst, rstc) && i < IntervalEnd(s, |mcus|, restart, nrst)
      modifies this`bits, this`bitc, this`out, this`data, this`seg, pdc, zz
      ensures Valid() && Written(mcus, s, i + 1, restart, nrst, rstc)
    {
      hide McuBits, McusBits, Segments, Frame, Close, Stuff, BytesBits, Bits, InRange, Complete, ScanBytes;
      ghost var e := IntervalEnd(s, |mcus|, restart, nrst);
      McusBitsStep(mcus, i, e, pdc[..], layout);
      NextPredictorsInRange(mcus[i], pdc[..]);
      Assoc(seg, McuBits(mcus[i], 0, pdc[..], layout),
            McusBits(mcus[i + 1..e], NextPredictors(mcus[i], pdc[..]), layout), []);
      var ok := EncodeMcu(mcus[i]);
    }

    /** Ends an interval that is not the last one: flush, restart marker, predictors cleared. */
    method Restart(rstc: nat, ghost mcus: seq<Mcu>, ghost s: nat, ghost restart: bool, ghost nrst: nat)
      requires Valid() && ValidMcus(mcus) && rstc < 8 && s <= |mcus|
        && s < IntervalEnd(s, |mcus|, restart, nrst) < |mcus|
      requires Written(mcus, s, IntervalEnd(s, |mcus|, restart, nrst), restart, nrst, rstc)
      modifies this`bits, this`bitc, this`out, this`data, this`base, this`seg, pdc
      ensures Valid()
      ensures Written(mcus, IntervalEnd(s, |mcus|, restart, nrst), IntervalEnd(s, |mcus|, restart, nrst), restart,
                      nrst, (rstc + 1) % 8)
    {
      hide McuBits, McusBits, Segments, Frame, Close, Stuff, BytesBits, Bits, ScanBytes;
      ghost var e := IntervalEnd(s, |mcus|, restart, nrst);
      NoMcusNoBits(mcus, e, pdc[..], layout);
      FrameStep(mcus, s, restart, nrst, layout, rstc);
      assert seg == McusBits(mcus[s..e], ZEROS, layout);
      pdc[0], pdc[1], pdc[2], pdc[3] := 0, 0, 0, 0;
      EndSegment(208 + rstc, BytesAfter(mcus, e, restart, nrst, layout, rstc));
      assert pdc[..] == ZEROS;
      ghost var rest := McusBits(mcus[e..IntervalEnd(e, |mcus|, restart, nrst)], ZEROS, layout);
      assert seg + rest == rest;
    }

    lemma ScanStart(mcus: seq<Mcu>, restart: bool, nrst: nat)
      requires Valid() && ValidMcus(mcus) && pdc[..] == ZEROS && base == [] && seg == []
      ensures Written(mcus, 0, 0, restart, nrst, 0)
    {
      hide McusBits, Segments, Frame, Bits, Stuff, BytesBits;
    }

    /** When the last interval is written only its own segment is missing. */
    lemma ScanEnd(mcus: seq<Mcu>, s: nat, restart: bool, nrst: nat, rstc: nat)
      requires Valid() && ValidMcus(mcus) && rstc < 8 && s <= |mcus| && Written(mcus, s, |mcus|, restart, nrst, rstc)
      ensures base + (Close(seg) + [255, 217]) == ScanBytes(mcus, restart, nrst, layout)
    {
      hide McusBits, Segments, Frame, Close, Stuff, BytesBits, Bits, ScanBytes;
      NoMcusNoBits(mcus, |mcus|, pdc[..], layout);
      FrameStep(mcus, s, restart, nrst, layout, rstc);
      assert seg == McusBits(mcus[s..|mcus|], ZEROS, layout);
      assert [255, 217] + BytesAfter(mcus, |mcus|, restart, nrst, layout, rstc) == [255, 217];
    }

    /** The whole scan: a flush and a restart marker after every nrst + 1 MCUs when restarts are
        on, and EOI at the end. The error exits of the block coder are never taken. */
    method EncodeScan(mcus: seq<Mcu>, restart: bool, nrst: nat) returns (ok: bool)
      requires Valid() && Complete() && McusInRange(mcus)
      requires pdc[..] == ZEROS && out == base == [] && seg == []
      modifies this`bits, this`bitc, this`out, this`data, this`base, this`seg, pdc, zz
      ensures ok && out == ScanBytes(mcus, restart, nrst, layout) && IsScan(out, mcus, restart, nrst, layout)
    {
      hide McuBits, McusBits, Segments, Frame, Close, Stuff, BytesBits, Bits, InRange, Complete, ScanBytes, IsScan;
      ScanStart(mcus, restart, nrst);
      hide Written;
      var rstcnt, rstc, i := nrst, 0, 0;
      ghost var n, s := |mcus|, 0;
      while i < |mcus|
        invariant Valid() && 0 <= s <= i <= n && 0 <= rstc < 8 && rstcnt >= 0
        invariant i <= IntervalEnd(s, n, restart, nrst)
        invariant i == IntervalEnd(s, n, restart, nrst) ==> i == n
        invariant restart && i < n ==> rstcnt == nrst - (i - s)
        invariant Written(mcus, s, i, restart, nrst, rstc)
      {
        EncodeNext(mcus, s, i, restart, nrst, rstc);
        if restart && i != |mcus| - 1 {
          if rstcnt != 0 {
            rstcnt := rstcnt - 1;
          } else {
            Restart(rstc, mcus, s, restart, nrst);
            s := i + 1;
            rstcnt := nrst;
            rstc := (rstc + 1) % 8;
          }
        }
        i := i + 1;
      }
      ScanEnd(mcus, s, restart, nrst, rstc);
      EndSegment(217, []);
      ScanBytesAreScan(mcus, restart, nrst, layout);
      return true;
    }
  }
}
