/** From the four table definitions of a file to the tables of both programs. */
module TableLoading {
  import opened Words
  import opened CanonicalCodes
  import opened HuffmanTables
  import opened TableGenerator
  import opened CodecTables

  function Starts(sizes: seq<nat>): (s: seq<nat>)
    requires ValidSizes(sizes)
    ensures |s| == |sizes| + 1 && forall k :: 0 <= k < |s| ==> s[k] == Kraft(sizes, k)
  {
    seq(|sizes| + 1, k requires 0 <= k <= |sizes| => Kraft(sizes, k))
  }

  /** A decodable table occupies consecutive windows, one run per symbol. */
  lemma StartsTile(sizes: seq<nat>)
    requires ValidSizes(sizes) && Kraft(sizes, |sizes|) <= FULL
    ensures Tiling(Starts(sizes))
  {
    forall j, k | 0 <= j <= k < |Starts(sizes)|
      ensures Starts(sizes)[j] <= Starts(sizes)[k]
    {
      KraftMonotonic(sizes, j, k);
    }
  }

  /** The generator's row for a table, as the decoder reads it. */
  ghost predicate IsRow(hcode: seq<nat>, hlen: seq<nat>, vals: seq<byte>, codes: seq<nat>, sizes: seq<nat>) {
    && |hcode| == |hlen| == 256 && |codes| == |sizes| == |vals|
    && (forall v :: 0 <= v < 256 && v !in vals ==> hlen[v] == 0)
    && (forall k :: 0 <= k < |vals| ==> hcode[vals[k]] == codes[k] && hlen[vals[k]] == sizes[k])
  }

  lemma EntryStart(sizes: seq<nat>, k: nat)
    requires ValidSizes(sizes) && k < |sizes|
    ensures Starts(sizes)[k] == Padded(HuffCode(sizes, k), 16 - sizes[k])
    ensures Starts(sizes)[k + 1] == Starts(sizes)[k] + Pow2(16 - sizes[k])
  {
    assert Kraft(sizes, k + 1) == Kraft(sizes, k) + Pow2(16 - sizes[k]);
    hide HuffCode, Kraft;
    CodeIsKraftSum(sizes, k);
  }

  lemma RowHasEntries(hcode: seq<nat>, hlen: seq<nat>, vals: seq<byte>, codes: seq<nat>, sizes: seq<nat>,
                      n: nat, ac: bool)
    requires IsRow(hcode, hlen, vals, codes, sizes) && IsTable(vals, codes, sizes, ac) && AreCodes(codes, sizes)
    requires n == (if ac then 256 else 16) && Kraft(sizes, |sizes|) <= FULL
    ensures Entries(hcode, hlen, vals, Starts(sizes), n)
  {
    hide Padded, Kraft, Pow2, HuffCode, Tiling;
    StartsTile(sizes);
    forall k | 0 <= k < |vals|
      ensures vals[k] < n && 1 <= hlen[vals[k]] <= 16
      ensures Starts(sizes)[k] == Padded(hcode[vals[k]], 16 - hlen[vals[k]])
      ensures Starts(sizes)[k + 1] == Starts(sizes)[k] + Pow2(16 - hlen[vals[k]])
    {
      assert Legal(vals[k], ac);
      EntryStart(sizes, k);
    }
  }

  /** Window lookup is bit-serial decoding: every 16-bit window yields the symbol that Figure
      F.16 of T.81 would find in it bit by bit, and 0 where no code starts the window. */
  lemma WindowsAreSerialDecoding(dec: WindowTable, hlen: seq<nat>, vals: seq<byte>, sizes: seq<nat>, n: nat, w: nat)
    requires ValidSizes(sizes) && |vals| == |sizes| && Kraft(sizes, |sizes|) <= FULL && Tiling(Starts(sizes))
    requires |dec.symbol| == FULL && |hlen| == 256 && |dec.len| == n <= 256
    requires Filled(dec.symbol, dec.len, hlen, vals, Starts(sizes), n, 256)
    requires w < FULL
    ensures var k := SerialDecode(sizes, w, 1);
      -1 <= k < |vals| && dec.symbol[w] == if k == -1 then 0 else vals[k]
  {
    if w < Kraft(sizes, |sizes|) {
      var k := WindowHasCode(sizes, w, |sizes|);
      SerialDecodeFindsCode(sizes, w, k);
      InWindowIff(sizes, k, w);
      assert Starts(sizes)[k] <= w < Starts(sizes)[k + 1];
    } else {
      SerialNone(sizes, w, 1);
      assert Starts(sizes)[|vals|] <= w;
    }
  }

  /** What it takes of a table definition for the codec to work with it. */
  ghost predicate Usable(d: Dht, ac: bool) {
    && d.Valid(ac) && |d.vals| <= (if ac then 162 else 12)
    && d.Decodable() && NarrowSafe(d.Sizes())
  }

  ghost predicate CodesHeld(m: Memories, d: Dht, ac: bool, ht: nat)
    requires m.Valid() && ht <= 1 && d.Valid(ac)
  {
    && (forall k :: 0 <= k < |d.vals| ==> m.hcode[TableId(ac, ht) * 256 + d.vals[k]] == d.Codes()[k])
    && (forall k :: 0 <= k < |d.vals| ==> m.hlen[TableId(ac, ht) * 256 + d.vals[k]] == d.Sizes()[k])
    && (forall k :: 0 <= k < |d.vals| ==>
          m.huffenc[EncoderBase(ac, ht) + Slot(d.vals[k], ac)] == Narrow(d.Codes()[k], d.Sizes()[k]))
  }

  ghost predicate AddressesHeld(m: Memories, d: Dht, ac: bool, ht: nat)
    requires m.Valid() && ht <= 1 && d.Valid(ac)
  {
    forall k :: 0 <= k < |d.vals| ==>
      m.hea[LengthBase(ac, ht) + d.Sizes()[k] - 1] + d.Codes()[k] == SymbolBase(ac, ht) + k
  }

  ghost predicate SymbolsHeld(m: Memories, vals: seq<byte>, ac: bool, ht: nat)
    requires m.Valid() && ht <= 1 && |vals| <= (if ac then 162 else 12)
  {
    forall k :: 0 <= k < |vals| ==>
      vals[k] == if ac then m.heb[SymbolBase(ac, ht) + k] else Nibble(m.heb[SymbolBase(ac, ht) + k], ht)
  }

  /** TabGen.MinLoaded, likewise. */
  ghost predicate MinHolds(m: Memories, sizes: seq<nat>, ac: bool, ht: nat)
    requires m.Valid() && ht <= 1 && ValidSizes(sizes)
  {
    forall a :: LengthBase(ac, ht) <= a < LengthBase(ac, ht) + 16 ==>
      IsSmallest(m.min[a], sizes, a - LengthBase(ac, ht) + 1)
  }

  /** TabGen.Loaded, said of the memories' contents. */
  ghost predicate Holds(m: Memories, d: Dht, ac: bool, ht: nat)
    requires m.Valid() && ht <= 1 && d.Valid(ac) && |d.vals| <= (if ac then 162 else 12)
  {
    && CodesHeld(m, d, ac, ht) && AddressesHeld(m, d, ac, ht)
    && SymbolsHeld(m, d.vals, ac, ht) && MinHolds(m, d.Sizes(), ac, ht)
  }

  /** Symbols that a table's definition does not list have no length in its row. */
  ghost predicate NoStrays(hlen: seq<nat>, hid: nat, vals: seq<byte>)
    requires |hlen| == 1024 && hid <= 3
  {
    forall v :: 0 <= v < 256 && v !in vals ==> hlen[hid * 256 + v] == 0
  }

  /** Entries of symbols that a definition does not list are still the filler. */
  ghost predicate Fillers(huffenc: seq<nat>, ac: bool, ht: nat, vals: seq<byte>)
    requires |huffenc| == 384 && ht <= 1
  {
    forall v: byte :: Legal(v, ac) && v !in vals ==> huffenc[EncoderBase(ac, ht) + Slot(v, ac)] == 0xfff
  }

  /** The encoder's table has the canonical code of every symbol the definition lists. Other
      legal symbols read back as 16 ones, and illegal ones have no length. */
  ghost predicate EncoderTable(enc: CodeTable, d: Dht, ac: bool)
    requires d.Valid(ac)
  {
    && |enc.code| == |enc.len| == (if ac then 256 else 16)
    && (forall k :: 0 <= k < |d.vals| ==>
          d.vals[k] < |enc.len| && enc.code[d.vals[k]] == d.Codes()[k] && enc.len[d.vals[k]] == d.Sizes()[k])
    && (forall v: byte :: v < |enc.len| && v !in d.vals && Legal(v, ac) ==> enc.code[v] == 0xffff && enc.len[v] == 16)
    && (forall v: byte :: v < |enc.len| ==> enc.len[v] <= 16 && (enc.len[v] != 0 <==> Legal(v, ac)))
  }

  ghost predicate FillersFrom(file: seq<nat>, base: nat, vals: seq<byte>, ac: bool)
    requires base + (if ac then 162 else 12) <= |file|
  {
    forall v: byte :: Legal(v, ac) && v !in vals ==> file[base + Slot(v, ac)] == 0xfff
  }

  lemma FillersAreFrom(file: seq<nat>, ac: bool, ht: nat, vals: seq<byte>)
    requires |file| == 384 && ht <= 1 && Fillers(file, ac, ht, vals)
    ensures FillersFrom(file, EncoderBase(ac, ht), vals, ac)
  {
    hide Slot;
  }

  /** The encoder memory as the encoder reads it. */
  ghost predicate ReadBack(enc: CodeTable, file: seq<nat>, base: nat, ac: bool)
    requires base + (if ac then 162 else 12) <= |file|
  {
    && |enc.code| == |enc.len| == (if ac then 256 else 16)
    && (forall v: byte :: Legal(v, ac) ==>
          enc.code[v] == WideCode(file[base + Slot(v, ac)]) && enc.len[v] == WideSize(file[base + Slot(v, ac)]))
    && (forall v: byte :: v < |enc.len| && !Legal(v, ac) ==> enc.len[v] == 0)
  }

  /** The filler reads back as 16 ones. */
  lemma WideFiller()
    ensures WideCode(0xfff) == 0xffff && WideSize(0xfff) == 16
  {
    Pow2Values();
  }

  lemma WideSizeRange(entry: nat)
    requires entry < 4096
    ensures 1 <= WideSize(entry) <= 16
  {
  }

  lemma WideIsCode(sizes: seq<nat>, k: nat)
    requires ValidSizes(sizes) && k < |sizes| && Kraft(sizes, |sizes|) <= FULL && NarrowSafe(sizes)
    ensures WideCode(Narrow(HuffCode(sizes, k), sizes[k])) == HuffCode(sizes, k)
    ensures WideSize(Narrow(HuffCode(sizes, k), sizes[k])) == sizes[k]
  {
    hide HuffCode, Kraft, Pow2, WideCode, WideSize, Narrow, NarrowSafe;
    NarrowLosslessIff(sizes);
    FitIffKraft(sizes);
    NarrowIsLossless(HuffCode(sizes, k), sizes[k]);
  }

  lemma EncoderTableIsRight(enc: CodeTable, file: seq<nat>, base: nat, d: Dht, ac: bool)
    requires Usable(d, ac) && base + (if ac then 162 else 12) <= |file|
    requires forall i :: 0 <= i < |file| ==> file[i] < 4096
    requires ReadBack(enc, file, base, ac) && FillersFrom(file, base, d.vals, ac)
    requires forall k :: 0 <= k < |d.vals| ==> file[base + Slot(d.vals[k], ac)] == Narrow(d.Codes()[k], d.Sizes()[k])
    ensures EncoderTable(enc, d, ac)
  {
    hide HuffCode, HuffSize, Kraft, Pow2, WideCode, WideSize, NarrowSafe, Narrow;
    forall k | 0 <= k < |d.vals|
      ensures d.vals[k] < |enc.len| && enc.code[d.vals[k]] == d.Codes()[k] && enc.len[d.vals[k]] == d.Sizes()[k]
    {
      assert Legal(d.vals[k], ac);
      WideIsCode(d.Sizes(), k);
    }
    WideFiller();
    forall v: byte | v < |enc.len|
      ensures enc.len[v] <= 16 && (enc.len[v] != 0 <==> Legal(v, ac))
    {
      if Legal(v, ac) {
        WideSizeRange(file[base + Slot(v, ac)]);
      }
    }
  }

  method LoadEncoderTable(file: seq<nat>, ghost d: Dht, ac: bool, ht: nat, ghost m: Memories) returns (enc: CodeTable)
    requires m.Valid() && m.TwelveBits() && file == m.huffenc && ht <= 1 && Usable(d, ac) && CodesHeld(m, d, ac, ht)
    requires Fillers(m.huffenc, ac, ht, d.vals)
    ensures EncoderTable(enc, d, ac)
  {
    hide HuffCode, HuffSize, Kraft, Pow2, WideCode, WideSize, NarrowSafe, Narrow, Fillers;
    var base := EncoderBase(ac, ht);
    if ac {
      enc := LoadAcTable(file, base);
    } else {
      enc := LoadDcTable(file, base);
    }
    assert FillersFrom(file, base, d.vals, ac) by { FillersAreFrom(file, ac, ht, d.vals); }
    EncoderTableIsRight(enc, file, base, d, ac);
  }

  /** The decoder's table has the length of every symbol the definition lists and none for any
      other, and looking a window up is decoding it bit by bit. A window that no code starts
      is looked up as symbol 0, and as many bits are dropped as a code of symbol 0 has, none if
      it is not listed. */
  ghost predicate DecoderTable(dec: WindowTable, d: Dht, ac: bool)
    requires d.Valid(ac)
  {
    && |dec.len| == (if ac then 256 else 16) && |dec.symbol| == FULL
    && (forall k :: 0 <= k < |d.vals| ==> d.vals[k] < |dec.len| && dec.len[d.vals[k]] == d.Sizes()[k])
    && (forall v: byte :: v < |dec.len| && v !in d.vals ==> dec.len[v] == 0)
    && (forall w :: 0 <= w < FULL ==>
          var k := SerialDecode(d.Sizes(), w, 1);
          -1 <= k < |d.vals| && dec.symbol[w] == if k == -1 then 0 else d.vals[k])
  }

  lemma RowOf(hcode: seq<nat>, hlen: seq<nat>, hid: nat, vals: seq<byte>, codes: seq<nat>, sizes: seq<nat>)
    requires hid <= 3 && |hcode| == |hlen| == 1024 && |vals| == |codes| == |sizes|
    requires forall k :: 0 <= k < |vals| ==>
      hcode[hid * 256 + vals[k]] == codes[k] && hlen[hid * 256 + vals[k]] == sizes[k]
    requires forall v :: 0 <= v < 256 && v !in vals ==> hlen[hid * 256 + v] == 0
    ensures IsRow(hcode[hid * 256..hid * 256 + 256], hlen[hid * 256..hid * 256 + 256], vals, codes, sizes)
  {
  }

  lemma HoldsRow(m: Memories, d: Dht, ac: bool, ht: nat)
    requires m.Valid() && ht <= 1 && d.Valid(ac) && |d.vals| <= (if ac then 162 else 12) && CodesHeld(m, d, ac, ht)
    requires NoStrays(m.hlen, TableId(ac, ht), d.vals)
    ensures var lo := TableId(ac, ht) * 256;
      && lo + 256 <= |m.hcode| == |m.hlen|
      && IsRow(m.hcode[lo..lo + 256], m.hlen[lo..lo + 256], d.vals, d.Codes(), d.Sizes())
  {
    hide HuffCode, HuffSize, Narrow, Slot;
    RowOf(m.hcode, m.hlen, TableId(ac, ht), d.vals, d.Codes(), d.Sizes());
  }

  lemma UsableTable(d: Dht, ac: bool)
    requires Usable(d, ac)
    ensures d.Valid(ac) && IsTable(d.vals, d.Codes(), d.Sizes(), ac) && AreCodes(d.Codes(), d.Sizes())
    ensures Kraft(d.Sizes(), |d.Sizes()|) <= FULL
  {
    hide IsTable, AreCodes, HuffCode, HuffSize, Kraft, NarrowSafe;
    TableOf(d, ac);
  }

  lemma DecoderTableIsRight(dec: WindowTable, hcode: seq<nat>, hlen: seq<nat>, d: Dht, ac: bool)
    requires Usable(d, ac) && |dec.symbol| == FULL && |dec.len| == (if ac then 256 else 16)
    requires Entries(hcode, hlen, d.vals, Starts(d.Sizes()), |dec.len|)
    requires forall k :: 0 <= k < |d.vals| ==> hlen[d.vals[k]] == d.Sizes()[k]
    requires forall v :: 0 <= v < 256 && v !in d.vals ==> hlen[v] == 0
    requires Filled(dec.symbol, dec.len, hlen, d.vals, Starts(d.Sizes()), |dec.len|, 256)
    ensures DecoderTable(dec, d, ac)
  {
    hide HuffCode, HuffSize, Kraft, Pow2;
    forall w | 0 <= w < FULL
      ensures var k := SerialDecode(d.Sizes(), w, 1);
        -1 <= k < |d.vals| && dec.symbol[w] == if k == -1 then 0 else d.vals[k]
    {
      WindowsAreSerialDecoding(dec, hlen, d.vals, d.Sizes(), |dec.len|, w);
    }
  }

  method WindowsOfRow(hcode: seq<nat>, hlen: seq<nat>, ghost d: Dht, ac: bool) returns (dec: WindowTable)
    requires Usable(d, ac) && IsRow(hcode, hlen, d.vals, d.Codes(), d.Sizes())
    ensures DecoderTable(dec, d, ac)
  {
    var n := if ac then 256 else 16;
    UsableTable(d, ac);
    hide HuffCode, HuffSize, Kraft, Pow2, Filled, Entries, Usable, IsTable, AreCodes;
    RowHasEntries(hcode, hlen, d.vals, d.Codes(), d.Sizes(), n, ac);
    dec := FillWindows(hcode, hlen, n, d.vals, Starts(d.Sizes()));
    DecoderTableIsRight(dec, hcode, hlen, d, ac);
  }

  lemma UsableIsValid(d: Dht, ac: bool)
    requires Usable(d, ac)
    ensures d.Valid(ac) && |d.vals| <= (if ac then 162 else 12)
  {
    hide Dht.Valid;
  }

  method LoadDecoderTable(hcode: seq<nat>, hlen: seq<nat>, ghost d: Dht, ac: bool, ht: nat, ghost m: Memories)
    returns (dec: WindowTable)
    requires m.Valid() && ht <= 1 && Usable(d, ac) && CodesHeld(m, d, ac, ht) && hcode == m.hcode && hlen == m.hlen
    requires NoStrays(m.hlen, TableId(ac, ht), d.vals)
    ensures DecoderTable(dec, d, ac)
  {
    hide *;
    UsableIsValid(d, ac);
    var lo := TableId(ac, ht) * 256;
    HoldsRow(m, d, ac, ht);
    dec := WindowsOfRow(hcode[lo..lo + 256], hlen[lo..lo + 256], d, ac);
  }

  lemma ListedMatches(enc: CodeTable, dec: WindowTable, d: Dht, ac: bool, v: byte)
    requires Usable(d, ac) && EncoderTable(enc, d, ac) && DecoderTable(dec, d, ac) && v in d.vals
    ensures Matches(enc, dec, v)
  {
    hide HuffCode, HuffSize, Kraft, Pow2, NarrowSafe, SerialDecode;
    var sizes := d.Sizes();
    var k :| 0 <= k < |d.vals| && d.vals[k] == v;
    FitIffKraft(sizes);
    assert enc.code[v] == d.Codes()[k] == HuffCode(sizes, k) < Pow2(sizes[k]);
    forall w: nat | w < FULL && InWindow(w, enc.code[v], enc.len[v])
      ensures dec.symbol[w] == v
    {
      SerialDecodeFindsCode(sizes, w, k);
    }
  }

  /** Encoder and decoder agree on a legal symbol exactly when the definition lists it. */
  lemma TablesMatch(enc: CodeTable, dec: WindowTable, d: Dht, ac: bool, v: byte)
    requires Usable(d, ac) && EncoderTable(enc, d, ac) && DecoderTable(dec, d, ac) && Legal(v, ac)
    ensures Matches(enc, dec, v) <==> v in d.vals
  {
    hide HuffCode, HuffSize, Kraft, Pow2, NarrowSafe, SerialDecode;
    if v in d.vals {
      ListedMatches(enc, dec, d, ac, v);
    }
  }

  /** A symbol that the definition does not list has a code for the encoder, 16 ones, but none
      for the decoder: the decoder finds it in that window only if it is symbol 0 and no code
      consists of ones, and drops no bits for it. */
  lemma UnlistedSymbol(enc: CodeTable, dec: WindowTable, d: Dht, ac: bool, v: byte)
    requires Usable(d, ac) && EncoderTable(enc, d, ac) && DecoderTable(dec, d, ac) && Legal(v, ac) && v !in d.vals
    ensures v < |enc.len| == |dec.len| && enc.len[v] == 16 && dec.len[v] == 0
    ensures forall w: nat :: w < FULL && InWindow(w, enc.code[v], enc.len[v]) <==> w == 0xffff
    ensures dec.symbol[0xffff] == v <==> v == 0 && SerialDecode(d.Sizes(), 0xffff, 1) == -1
  {
    hide HuffCode, HuffSize, Kraft, NarrowSafe, SerialDecode;
    assert Pow2(0) == 1;
  }

  // ---- one more definition

  /** The contents m2 differ from m1 only where the table for ac, ht is stored. */
  ghost predicate OnlyTable(m1: Memories, m2: Memories, vals: seq<byte>, ac: bool, ht: nat)
    requires m1.Valid() && m2.Valid() && ht <= 1 && |vals| <= (if ac then 162 else 12)
  {
    && (forall i :: 0 <= i < 1024 && !(0 <= i - TableId(ac, ht) * 256 < 256 && i - TableId(ac, ht) * 256 in vals)
          ==> m2.hcode[i] == m1.hcode[i] && m2.hlen[i] == m1.hlen[i])
    && (forall i :: 0 <= i < 384 && !(EncoderBase(ac, ht) <= i < EncoderBase(ac, ht) + if ac then 162 else 12)
          ==> m2.huffenc[i] == m1.huffenc[i])
    && (forall v: byte :: Legal(v, ac) && v !in vals ==>
          m2.huffenc[EncoderBase(ac, ht) + Slot(v, ac)] == m1.huffenc[EncoderBase(ac, ht) + Slot(v, ac)])
    && (forall i :: 0 <= i < 64 && !(LengthBase(ac, ht) <= i < LengthBase(ac, ht) + 16) ==>
          m2.hea[i] == m1.hea[i] && m2.min[i] == m1.min[i])
    && (forall i :: 0 <= i < 336 && !(SymbolBase(ac, ht) <= i < SymbolBase(ac, ht) + |vals|) ==> m2.heb[i] == m1.heb[i])
    && (!ac ==> forall i :: 162 <= i < 174 ==> OtherNibble(m2.heb[i], ht) == OtherNibble(m1.heb[i], ht))
    && (m1.SharedBytes() ==> m2.SharedBytes())
    && (m1.TwelveBits() ==> m2.TwelveBits())
  }

  /** The symbols of a DC table are merged into what their entries held before. */
  ghost predicate SymbolsStored(m1: Memories, m2: Memories, vals: seq<byte>, ac: bool, ht: nat)
    requires m1.Valid() && m2.Valid() && ht <= 1 && |vals| <= (if ac then 162 else 12)
  {
    forall i :: SymbolBase(ac, ht) <= i < SymbolBase(ac, ht) + |vals| ==>
      var v := vals[i - SymbolBase(ac, ht)];
      if ac then m2.heb[i] == v else Nibble(m2.heb[i], ht) == Or(Nibble(m1.heb[i], ht), v)
  }

  /** What installing a definition makes of the memories m1. */
  ghost predicate Stored(m1: Memories, m2: Memories, d: Dht, ac: bool, ht: nat)
    requires m1.Valid() && m2.Valid() && ht <= 1 && d.Valid(ac) && |d.vals| <= (if ac then 162 else 12)
  {
    && OnlyTable(m1, m2, d.vals, ac, ht) && CodesHeld(m2, d, ac, ht) && AddressesHeld(m2, d, ac, ht)
    && SymbolsStored(m1, m2, d.vals, ac, ht) && MinHolds(m2, d.Sizes(), ac, ht)
  }

  lemma CodesHold(g: TabGen, vals: seq<byte>, codes: seq<nat>, sizes: seq<nat>, hid: nat)
    requires g.Valid() && hid <= 3 && |vals| == |codes| == |sizes| && g.CodesLoaded(vals, codes, sizes, hid, |vals|)
    ensures forall k :: 0 <= k < |vals| ==> g.Snapshot().hcode[hid * 256 + vals[k]] == codes[k]
    ensures forall k :: 0 <= k < |vals| ==> g.Snapshot().hlen[hid * 256 + vals[k]] == sizes[k]
  {
  }

  lemma NarrowHolds(g: TabGen, vals: seq<byte>, codes: seq<nat>, sizes: seq<nat>, ac: bool, ht: nat)
    requires g.Valid() && ht <= 1 && IsTable(vals, codes, sizes, ac)
      && g.NarrowLoaded(vals, codes, sizes, ac, ht, |vals|)
    ensures forall k :: 0 <= k < |vals| ==>
      && 0 <= EncoderBase(ac, ht) + Slot(vals[k], ac) < 384
      && g.Snapshot().huffenc[EncoderBase(ac, ht) + Slot(vals[k], ac)] == Narrow(codes[k], sizes[k])
  {
    hide Narrow, Slot;
    forall k | 0 <= k < |vals|
      ensures 0 <= EncoderBase(ac, ht) + Slot(vals[k], ac) < 384
      ensures g.Snapshot().huffenc[EncoderBase(ac, ht) + Slot(vals[k], ac)] == Narrow(codes[k], sizes[k])
    {
      assert Legal(vals[k], ac);
    }
  }

  lemma CodesAreHeld(g: TabGen, d: Dht, ac: bool, ht: nat)
    requires g.Valid() && ht <= 1 && d.Valid(ac) && |d.vals| <= (if ac then 162 else 12)
    requires g.CodesLoaded(d.vals, d.Codes(), d.Sizes(), TableId(ac, ht), |d.vals|)
    requires g.NarrowLoaded(d.vals, d.Codes(), d.Sizes(), ac, ht, |d.vals|)
    ensures CodesHeld(g.Snapshot(), d, ac, ht)
  {
    hide HuffCode, HuffSize, Narrow, Slot, TabGen.CodesLoaded, TabGen.NarrowLoaded;
    CodesHold(g, d.vals, d.Codes(), d.Sizes(), TableId(ac, ht));
    NarrowHolds(g, d.vals, d.Codes(), d.Sizes(), ac, ht);
  }

  lemma AddressesAreHeld(g: TabGen, d: Dht, ac: bool, ht: nat)
    requires g.Valid() && ht <= 1 && d.Valid(ac) && |d.vals| <= (if ac then 162 else 12)
    requires g.AddressesLoaded(d.Codes(), d.Sizes(), ac, ht, |d.vals|)
    ensures AddressesHeld(g.Snapshot(), d, ac, ht)
  {
    hide HuffCode, HuffSize;
  }

  lemma SymbolsAreStored(g: TabGen, m: Memories, vals: seq<byte>, ac: bool, ht: nat)
    requires g.Valid() && m.Valid() && ht <= 1 && |vals| <= (if ac then 162 else 12)
    requires g.SymbolsLoaded(vals, ac, ht, |vals|, m)
    ensures SymbolsStored(m, g.Snapshot(), vals, ac, ht)
  {
    hide Nibble, Or;
  }

  lemma MinIsHeld(g: TabGen, sizes: seq<nat>, ac: bool, ht: nat)
    requires g.Valid() && ht <= 1 && ValidSizes(sizes) && g.MinLoaded(sizes, ac, ht, 16)
    ensures MinHolds(g.Snapshot(), sizes, ac, ht)
  {
    hide IsSmallest;
  }

  lemma KeptOnlyTable(g: TabGen, m: Memories, vals: seq<byte>, ac: bool, ht: nat)
    requires g.Valid() && m.Valid() && ht <= 1 && |vals| <= (if ac then 162 else 12) && g.Kept(vals, ac, ht, |vals|, m)
    ensures OnlyTable(m, g.Snapshot(), vals, ac, ht)
  {
    hide Slot, OtherNibble;
  }

  lemma LoadedIsStored(g: TabGen, m: Memories, d: Dht, ac: bool, ht: nat)
    requires g.Valid() && m.Valid() && ht <= 1 && d.Valid(ac) && |d.vals| <= (if ac then 162 else 12)
    requires g.Loaded(d, ac, ht, m) && g.Kept(d.vals, ac, ht, |d.vals|, m)
    ensures Stored(m, g.Snapshot(), d, ac, ht)
  {
    hide HuffCode, HuffSize, TabGen.CodesLoaded, TabGen.NarrowLoaded, TabGen.AddressesLoaded, TabGen.SymbolsLoaded;
    hide TabGen.MinLoaded, TabGen.Kept, OnlyTable, MinHolds, CodesHeld, AddressesHeld, SymbolsStored;
    CodesAreHeld(g, d, ac, ht);
    AddressesAreHeld(g, d, ac, ht);
    SymbolsAreStored(g, m, d.vals, ac, ht);
    MinIsHeld(g, d.Sizes(), ac, ht);
    KeptOnlyTable(g, m, d.vals, ac, ht);
  }

  lemma OnlyTableBytes(m1: Memories, m2: Memories, vals: seq<byte>, ac: bool, ht: nat)
    requires m1.Valid() && m2.Valid() && ht <= 1 && |vals| <= (if ac then 162 else 12)
      && OnlyTable(m1, m2, vals, ac, ht)
    ensures m1.SharedBytes() ==> m2.SharedBytes()
    ensures m1.TwelveBits() ==> m2.TwelveBits()
  {
    hide Slot, OtherNibble;
  }

  // ---- storing one table leaves every other table in place

  lemma CodesStillHeld(m1: Memories, m2: Memories, d: Dht, ac: bool, ht: nat, vals: seq<byte>, ac2: bool, ht2: nat)
    requires m1.Valid() && m2.Valid() && ht <= 1 && ht2 <= 1 && (ac != ac2 || ht != ht2) && d.Valid(ac)
    requires |vals| <= (if ac2 then 162 else 12) && CodesHeld(m1, d, ac, ht) && OnlyTable(m1, m2, vals, ac2, ht2)
    ensures CodesHeld(m2, d, ac, ht)
  {
    hide HuffCode, HuffSize, Narrow, Kraft, Pow2;
  }

  lemma AddressesStillHeld(m1: Memories, m2: Memories, d: Dht, ac: bool, ht: nat, vals: seq<byte>, ac2: bool, ht2: nat)
    requires m1.Valid() && m2.Valid() && ht <= 1 && ht2 <= 1 && (ac != ac2 || ht != ht2) && d.Valid(ac)
    requires |vals| <= (if ac2 then 162 else 12) && AddressesHeld(m1, d, ac, ht) && OnlyTable(m1, m2, vals, ac2, ht2)
    ensures AddressesHeld(m2, d, ac, ht)
  {
    hide HuffCode, HuffSize, Kraft, Pow2, Slot;
  }

  /** Every entry that a table's symbols are read from reads as before. */
  lemma SymbolStays(m1: Memories, m2: Memories, k: nat, ac: bool, ht: nat, vals: seq<byte>, ac2: bool, ht2: nat)
    requires m1.Valid() && m2.Valid() && ht <= 1 && ht2 <= 1 && (ac != ac2 || ht != ht2)
    requires |vals| <= (if ac2 then 162 else 12) && OnlyTable(m1, m2, vals, ac2, ht2)
    requires k < (if ac then 162 else 12) && m1.SharedBytes() && m2.SharedBytes()
    ensures var i := SymbolBase(ac, ht) + k;
      if ac then m2.heb[i] == m1.heb[i] else Nibble(m2.heb[i], ht) == Nibble(m1.heb[i], ht)
  {
    hide Slot;
    var i := SymbolBase(ac, ht) + k;
    if !ac {
      assert 0 <= m1.heb[i] < 256 && 0 <= m2.heb[i] < 256;
      if !ac2 {
        assert OtherNibble(m2.heb[i], ht2) == OtherNibble(m1.heb[i], ht2);
      }
    }
  }

  lemma SymbolsStillHeld(m1: Memories, m2: Memories, listed: seq<byte>, ac: bool, ht: nat, vals: seq<byte>,
                         ac2: bool, ht2: nat)
    requires m1.Valid() && m2.Valid() && ht <= 1 && ht2 <= 1 && (ac != ac2 || ht != ht2)
    requires |vals| <= (if ac2 then 162 else 12) && OnlyTable(m1, m2, vals, ac2, ht2)
    requires m1.SharedBytes() && m2.SharedBytes() && |listed| <= (if ac then 162 else 12)
    requires SymbolsHeld(m1, listed, ac, ht)
    ensures SymbolsHeld(m2, listed, ac, ht)
  {
    hide OnlyTable, Nibble, Memories.SharedBytes;
    forall k | 0 <= k < |listed|
      ensures listed[k] == if ac then m2.heb[SymbolBase(ac, ht) + k] else Nibble(m2.heb[SymbolBase(ac, ht) + k], ht)
    {
      SymbolStays(m1, m2, k, ac, ht, vals, ac2, ht2);
    }
  }

  lemma MinStaysSmallest(m1: Memories, m2: Memories, sizes: seq<nat>, ac: bool, ht: nat, vals: seq<byte>,
                         ac2: bool, ht2: nat)
    requires m1.Valid() && m2.Valid() && ht <= 1 && ht2 <= 1 && (ac != ac2 || ht != ht2) && ValidSizes(sizes)
    requires |vals| <= (if ac2 then 162 else 12) && MinHolds(m1, sizes, ac, ht) && OnlyTable(m1, m2, vals, ac2, ht2)
    ensures MinHolds(m2, sizes, ac, ht)
  {
    hide IsSmallest, Slot;
  }

  lemma StillHolds(m1: Memories, m2: Memories, d: Dht, ac: bool, ht: nat, vals: seq<byte>, ac2: bool, ht2: nat)
    requires m1.Valid() && m2.Valid() && ht <= 1 && ht2 <= 1 && (ac != ac2 || ht != ht2)
    requires d.Valid(ac) && |d.vals| <= (if ac then 162 else 12) && |vals| <= (if ac2 then 162 else 12)
    requires m1.SharedBytes() && Holds(m1, d, ac, ht) && OnlyTable(m1, m2, vals, ac2, ht2)
    ensures Holds(m2, d, ac, ht)
  {
    assert m2.SharedBytes() by { OnlyTableBytes(m1, m2, vals, ac2, ht2); }
    hide HuffCode, HuffSize, OnlyTable, CodesHeld, AddressesHeld, SymbolsHeld, MinHolds, Memories.SharedBytes;
    CodesStillHeld(m1, m2, d, ac, ht, vals, ac2, ht2);
    AddressesStillHeld(m1, m2, d, ac, ht, vals, ac2, ht2);
    MinStaysSmallest(m1, m2, d.Sizes(), ac, ht, vals, ac2, ht2);
    SymbolsStillHeld(m1, m2, d.vals, ac, ht, vals, ac2, ht2);
  }

  // ---- definitions in the order of a file

  /** One definition of a DHT segment: its class, its destination and the table. */
  datatype TableDef = TableDef(ac: bool, ht: nat, d: Dht)

  predicate Defines(def: TableDef, ac: bool, ht: nat) {
    def.ac == ac && def.ht == ht
  }

  /** No table at all. */
  function Undefined(): Dht {
    Dht(seq(16, _ => 0), [])
  }

  /** The definition of a table: the last one in the file. */
  function Definition(defs: seq<TableDef>, ac: bool, ht: nat): Dht {
    if defs == [] then Undefined()
    else
      var last := defs[|defs| - 1];
      if Defines(last, ac, ht) then last.d else Definition(defs[..|defs| - 1], ac, ht)
  }

  /** The symbols that any definition of a table lists. */
  function Listed(defs: seq<TableDef>, ac: bool, ht: nat): seq<byte> {
    if defs == [] then []
    else
      var front, last := Listed(defs[..|defs| - 1], ac, ht), defs[|defs| - 1];
      if Defines(last, ac, ht) then front + last.d.vals else front
  }

  /** The k-th symbols of all definitions of a DC table, merged. */
  function MergedSymbol(defs: seq<TableDef>, ht: nat, k: nat): nat {
    if defs == [] then 0
    else
      var front, last := MergedSymbol(defs[..|defs| - 1], ht, k), defs[|defs| - 1];
      if Defines(last, false, ht) && k < |last.d.vals| then Or(front, last.d.vals[k]) else front
  }

  /** Any number of usable definitions in any order, several of a table included. */
  ghost predicate ValidDefs(defs: seq<TableDef>) {
    forall i :: 0 <= i < |defs| ==> defs[i].ht <= 1 && Usable(defs[i].d, defs[i].ac)
  }

  /** The last definition of a table lists all symbols that earlier ones did. */
  ghost predicate NoneDropped(defs: seq<TableDef>, ac: bool, ht: nat) {
    forall v: byte :: v in Listed(defs, ac, ht) ==> v in Definition(defs, ac, ht).vals
  }

  /** Merging with earlier symbols leaves those of the last definition as they are. */
  ghost predicate NoneMerged(defs: seq<TableDef>, ht: nat) {
    var vals := Definition(defs, false, ht).vals;
    forall k :: 0 <= k < |vals| ==> MergedSymbol(defs, ht, k) == vals[k]
  }

  ghost predicate NothingDropped(defs: seq<TableDef>) {
    forall ac: bool, ht: nat :: ht <= 1 ==> NoneDropped(defs, ac, ht)
  }

  lemma {:induction false} EmptySizes(i: nat)
    requires i <= 16
    ensures HuffSize(Undefined().bits, i) == []
    decreases 16 - i
  {
    if i == 16 {
    } else {
      EmptySizes(i + 1);
    }
  }

  lemma UndefinedIsUsable(ac: bool)
    ensures Usable(Undefined(), ac) && Undefined().vals == [] && Undefined().Sizes() == []
  {
    EmptySizes(0);
  }

  /** After one more definition. */
  lemma NextDefinition(defs: seq<TableDef>, i: nat, ac: bool, ht: nat)
    requires i < |defs|
    ensures var front, more, vals := defs[..i], defs[..i + 1], defs[i].d.vals;
      if Defines(defs[i], ac, ht) then
        && Definition(more, ac, ht) == defs[i].d && Listed(more, ac, ht) == Listed(front, ac, ht) + vals
        && forall k: nat :: !ac ==>
             MergedSymbol(more, ht, k) ==
               if k < |vals| then Or(MergedSymbol(front, ht, k), vals[k]) else MergedSymbol(front, ht, k)
      else
        && Definition(more, ac, ht) == Definition(front, ac, ht) && Listed(more, ac, ht) == Listed(front, ac, ht)
        && forall k: nat :: !ac ==> MergedSymbol(more, ht, k) == MergedSymbol(front, ht, k)
  {
    assert defs[..i + 1][..i] == defs[..i];
  }

  ghost predicate DefinedOnce(defs: seq<TableDef>, ac: bool, ht: nat) {
    forall i, j :: 0 <= i < j < |defs| && Defines(defs[i], ac, ht) ==> !Defines(defs[j], ac, ht)
  }

  /** A table that is not defined twice keeps all its symbols as they are. */
  lemma {:induction false} OnceIsComplete(defs: seq<TableDef>, ac: bool, ht: nat)
    requires DefinedOnce(defs, ac, ht)
    ensures Listed(defs, ac, ht) == Definition(defs, ac, ht).vals && NoneDropped(defs, ac, ht)
    ensures !ac ==> NoneMerged(defs, ht)
    ensures (forall i :: 0 <= i < |defs| ==> !Defines(defs[i], ac, ht)) ==>
      Definition(defs, ac, ht) == Undefined() && forall k: nat :: !ac ==> MergedSymbol(defs, ht, k) == 0
  {
    if defs == [] {
    } else {
      var front, last := defs[..|defs| - 1], defs[|defs| - 1];
      OnceIsComplete(front, ac, ht);
      if Defines(last, ac, ht) {
        forall i | 0 <= i < |front|
          ensures !Defines(front[i], ac, ht)
        {
          assert front[i] == defs[i];
        }
      }
    }
  }

  // ---- what the memories hold of all definitions

  /** The symbols with a length. */
  ghost predicate LengthsOf(hlen: seq<nat>, hid: nat, vals: seq<byte>)
    requires |hlen| == 1024 && hid <= 3
  {
    forall v: byte :: v in vals <==> hlen[hid * 256 + v] != 0
  }

  ghost predicate SymbolsMerged(m: Memories, defs: seq<TableDef>, ht: nat)
    requires m.Valid()
  {
    forall k: nat :: k < 12 ==> Nibble(m.heb[162 + k], ht) == MergedSymbol(defs, ht, k)
  }

  /** A table after all definitions of a file: everything but the symbols of a DC table is as the
      last definition says, lengths and encoder entries of symbols only earlier ones listed remain,
      and the symbols of a DC table are merged. */
  ghost predicate TableState(m: Memories, defs: seq<TableDef>, ac: bool, ht: nat)
    requires m.Valid() && ht <= 1
  {
    var d := Definition(defs, ac, ht);
    && Usable(d, ac) && CodesHeld(m, d, ac, ht) && AddressesHeld(m, d, ac, ht) && MinHolds(m, d.Sizes(), ac, ht)
    && LengthsOf(m.hlen, TableId(ac, ht), Listed(defs, ac, ht)) && Fillers(m.huffenc, ac, ht, Listed(defs, ac, ht))
    && if ac then SymbolsHeld(m, d.vals, ac, ht) else SymbolsMerged(m, defs, ht)
  }

  ghost predicate AllHold(m: Memories, defs: seq<TableDef>) {
    && m.Valid() && m.TwelveBits() && m.SharedBytes()
    && forall ac: bool, ht: nat :: ht <= 1 ==> TableState(m, defs, ac, ht)
  }

  lemma StraysAreListed(hlen: seq<nat>, hid: nat, listed: seq<byte>, vals: seq<byte>)
    requires |hlen| == 1024 && hid <= 3 && LengthsOf(hlen, hid, listed)
    ensures NoStrays(hlen, hid, vals) <==> forall v: byte :: v in listed ==> v in vals
  {
    if NoStrays(hlen, hid, vals) {
      forall v: byte | v in listed
        ensures v in vals
      {
        assert hlen[hid * 256 + v] != 0;
      }
    } else {
      var v :| 0 <= v < 256 && v !in vals && hlen[hid * 256 + v] != 0;
      var b: byte := v;
      assert b in listed;
    }
  }

  lemma FillersOfMore(huffenc: seq<nat>, ac: bool, ht: nat, listed: seq<byte>, vals: seq<byte>)
    requires |huffenc| == 384 && ht <= 1 && Fillers(huffenc, ac, ht, listed)
      && forall v: byte :: v in listed ==> v in vals
    ensures Fillers(huffenc, ac, ht, vals)
  {
    hide Slot;
  }

  /** The readers of a table find just its symbols exactly if no earlier definition listed more. */
  lemma DroppedSymbolsStay(m: Memories, defs: seq<TableDef>, ac: bool, ht: nat)
    requires m.Valid() && ht <= 1 && TableState(m, defs, ac, ht)
    ensures NoStrays(m.hlen, TableId(ac, ht), Definition(defs, ac, ht).vals) <==> NoneDropped(defs, ac, ht)
    ensures NoneDropped(defs, ac, ht) ==> Fillers(m.huffenc, ac, ht, Definition(defs, ac, ht).vals)
  {
    hide Usable, CodesHeld, AddressesHeld, MinHolds, Definition, Listed, SymbolsHeld, SymbolsMerged;
    hide Fillers, LengthsOf, NoStrays;
    StraysAreListed(m.hlen, TableId(ac, ht), Listed(defs, ac, ht), Definition(defs, ac, ht).vals);
    if NoneDropped(defs, ac, ht) {
      FillersOfMore(m.huffenc, ac, ht, Listed(defs, ac, ht), Definition(defs, ac, ht).vals);
    }
  }

  lemma SymbolsAreMerged(m: Memories, defs: seq<TableDef>, ht: nat, vals: seq<byte>)
    requires m.Valid() && ht <= 1 && SymbolsMerged(m, defs, ht) && |vals| <= 12
    ensures SymbolsHeld(m, vals, false, ht) <==> forall k :: 0 <= k < |vals| ==> MergedSymbol(defs, ht, k) == vals[k]
  {
    hide MergedSymbol, Nibble;
  }

  /** The hardware decoder finds the symbols of a DC table exactly if earlier definitions have left
      no other bits in their places. */
  lemma MergedSymbolsMislead(m: Memories, defs: seq<TableDef>, ht: nat)
    requires m.Valid() && ht <= 1 && TableState(m, defs, false, ht)
    ensures |Definition(defs, false, ht).vals| <= 12
    ensures SymbolsHeld(m, Definition(defs, false, ht).vals, false, ht) <==> NoneMerged(defs, ht)
  {
    hide Usable, CodesHeld, AddressesHeld, MinHolds, Definition, Listed, MergedSymbol, LengthsOf, Fillers;
    hide SymbolsHeld, SymbolsMerged;
    UsableIsValid(Definition(defs, false, ht), false);
    SymbolsAreMerged(m, defs, ht, Definition(defs, false, ht).vals);
  }

  /** Where both hold, the last definition of a table is held whole. */
  lemma TableHolds(m: Memories, defs: seq<TableDef>, ac: bool, ht: nat)
    requires m.Valid() && ht <= 1 && TableState(m, defs, ac, ht) && (!ac ==> NoneMerged(defs, ht))
    ensures Usable(Definition(defs, ac, ht), ac) && Holds(m, Definition(defs, ac, ht), ac, ht)
  {
    UsableIsValid(Definition(defs, ac, ht), ac);
    if !ac {
      MergedSymbolsMislead(m, defs, ht);
    }
    hide Usable, CodesHeld, AddressesHeld, MinHolds, Definition, Listed, SymbolsHeld, SymbolsMerged, LengthsOf,
      Fillers, NoneMerged;
  }

  // ---- installing them

  lemma SmallestOfNone(size: nat)
    requires 1 <= size <= 16
    ensures ValidSizes([]) && IsSmallest(0, [], size)
  {
  }

  lemma NothingSmaller(g: TabGen, ac: bool, ht: nat)
    requires g.Valid() && ht <= 1 && forall i :: 0 <= i < 64 ==> g.min[i] == 0
    ensures ValidSizes([]) && MinHolds(g.Snapshot(), [], ac, ht)
  {
    hide IsSmallest;
    forall a | LengthBase(ac, ht) <= a < LengthBase(ac, ht) + 16
      ensures IsSmallest(g.Snapshot().min[a], [], a - LengthBase(ac, ht) + 1)
    {
      SmallestOfNone(a - LengthBase(ac, ht) + 1);
    }
  }

  lemma EmptyHolds(m: Memories, d: Dht, ac: bool, ht: nat)
    requires m.Valid() && ht <= 1 && d.Valid(ac) && d.vals == []
    ensures CodesHeld(m, d, ac, ht) && AddressesHeld(m, d, ac, ht) && SymbolsHeld(m, [], ac, ht)
  {
    hide HuffSize, HuffCode;
  }

  ghost predicate IsFresh(m: Memories) {
    && m.Valid()
    && (forall i :: 0 <= i < 1024 ==> m.hlen[i] == 0)
    && (forall i :: 0 <= i < 336 ==> m.heb[i] == 0)
    && (forall i :: 0 <= i < 384 ==>
          m.huffenc[i] == if 168 <= i < 176 || 344 <= i < 352 then 0xfd0 + i % 8 else 0xfff)
  }

  lemma FreshIsClear(m: Memories, ac: bool, ht: nat)
    requires IsFresh(m) && ht <= 1
    ensures LengthsOf(m.hlen, TableId(ac, ht), []) && Fillers(m.huffenc, ac, ht, []) && SymbolsMerged(m, [], ht)
  {
    hide Slot;
  }

  /** The memories as they start hold that nothing is defined. */
  lemma NothingHeld(g: TabGen, ac: bool, ht: nat)
    requires g.Valid() && ht <= 1 && IsFresh(g.Snapshot()) && forall i :: 0 <= i < 64 ==> g.min[i] == 0
    ensures TableState(g.Snapshot(), [], ac, ht)
  {
    UndefinedIsUsable(ac);
    NothingSmaller(g, ac, ht);
    FreshIsClear(g.Snapshot(), ac, ht);
    hide Usable, MinHolds, Undefined, LengthsOf, Fillers, SymbolsMerged, SymbolsHeld, CodesHeld, AddressesHeld, IsFresh;
    UsableIsValid(Undefined(), ac);
    EmptyHolds(g.Snapshot(), Undefined(), ac, ht);
    assert Definition([], ac, ht) == Undefined() && Listed([], ac, ht) == [];
  }

  lemma FreshHolds(g: TabGen)
    requires g.Valid() && IsFresh(g.Snapshot()) && forall i :: 0 <= i < 64 ==> g.min[i] == 0
    ensures AllHold(g.Snapshot(), [])
  {
    hide TableState;
    forall ac: bool, ht: nat | ht <= 1
      ensures TableState(g.Snapshot(), [], ac, ht)
    {
      NothingHeld(g, ac, ht);
    }
  }

  lemma LengthsStep(m1: Memories, m2: Memories, d: Dht, ac: bool, ht: nat, listed: seq<byte>)
    requires m1.Valid() && m2.Valid() && ht <= 1 && d.Valid(ac) && |d.vals| <= (if ac then 162 else 12)
    requires OnlyTable(m1, m2, d.vals, ac, ht) && CodesHeld(m2, d, ac, ht)
    requires LengthsOf(m1.hlen, TableId(ac, ht), listed)
    ensures LengthsOf(m2.hlen, TableId(ac, ht), listed + d.vals)
  {
    hide HuffSize, HuffCode, Slot, Narrow;
    var hid := TableId(ac, ht);
    forall v: byte
      ensures v in listed + d.vals <==> m2.hlen[hid * 256 + v] != 0
    {
      if v in d.vals {
        var k :| 0 <= k < |d.vals| && d.vals[k] == v;
        assert m2.hlen[hid * 256 + d.vals[k]] == d.Sizes()[k];
      } else {
        assert m2.hlen[hid * 256 + v] == m1.hlen[hid * 256 + v];
      }
    }
  }

  lemma FillersStep(m1: Memories, m2: Memories, vals: seq<byte>, ac: bool, ht: nat, listed: seq<byte>)
    requires m1.Valid() && m2.Valid() && ht <= 1 && |vals| <= (if ac then 162 else 12)
    requires OnlyTable(m1, m2, vals, ac, ht) && Fillers(m1.huffenc, ac, ht, listed)
    ensures Fillers(m2.huffenc, ac, ht, listed + vals)
  {
    hide Slot;
  }

  lemma MergedStep(m1: Memories, m2: Memories, defs: seq<TableDef>, i: nat, ht: nat)
    requires m1.Valid() && m2.Valid() && ht <= 1 && i < |defs| && Defines(defs[i], false, ht) && |defs[i].d.vals| <= 12
    requires OnlyTable(m1, m2, defs[i].d.vals, false, ht) && SymbolsStored(m1, m2, defs[i].d.vals, false, ht)
    requires SymbolsMerged(m1, defs[..i], ht)
    ensures SymbolsMerged(m2, defs[..i + 1], ht)
  {
    hide Nibble, Or, OtherNibble, Slot, MergedSymbol, Listed, Definition;
    NextDefinition(defs, i, false, ht);
    var front, more, vals := defs[..i], defs[..i + 1], defs[i].d.vals;
    forall k: nat | k < 12
      ensures Nibble(m2.heb[162 + k], ht) == MergedSymbol(more, ht, k)
    {
      assert Nibble(m1.heb[162 + k], ht) == MergedSymbol(front, ht, k);
      var at := 162 + k;
      if k < |vals| {
        assert Nibble(m2.heb[at], ht) == Or(Nibble(m1.heb[at], ht), vals[at - 162]);
      } else {
        assert m2.heb[at] == m1.heb[at];
      }
    }
  }

  lemma StoredInPlace(m1: Memories, m2: Memories, vals: seq<byte>, ht: nat)
    requires m1.Valid() && m2.Valid() && ht <= 1 && |vals| <= 162 && SymbolsStored(m1, m2, vals, true, ht)
    ensures SymbolsHeld(m2, vals, true, ht)
  {
    forall k | 0 <= k < |vals|
      ensures vals[k] == m2.heb[SymbolBase(true, ht) + k]
    {
      var i := SymbolBase(true, ht) + k;
      assert m2.heb[i] == vals[i - SymbolBase(true, ht)];
    }
  }

  /** The table that is defined. */
  lemma DefinedState(m1: Memories, m2: Memories, defs: seq<TableDef>, i: nat, ac: bool, ht: nat)
    requires m1.Valid() && m2.Valid() && ht <= 1 && i < |defs| && Defines(defs[i], ac, ht) && Usable(defs[i].d, ac)
    requires Stored(m1, m2, defs[i].d, ac, ht) && TableState(m1, defs[..i], ac, ht)
    ensures TableState(m2, defs[..i + 1], ac, ht)
  {
    hide Usable, CodesHeld, AddressesHeld, MinHolds, Definition, Listed, MergedSymbol, OnlyTable, LengthsOf, Fillers;
    hide SymbolsMerged, SymbolsStored, SymbolsHeld;
    var d, front := defs[i].d, defs[..i];
    UsableIsValid(d, ac);
    NextDefinition(defs, i, ac, ht);
    LengthsStep(m1, m2, d, ac, ht, Listed(front, ac, ht));
    FillersStep(m1, m2, d.vals, ac, ht, Listed(front, ac, ht));
    if ac {
      StoredInPlace(m1, m2, d.vals, ht);
    } else {
      MergedStep(m1, m2, defs, i, ht);
    }
  }

  lemma LengthsStay(m1: Memories, m2: Memories, listed: seq<byte>, ac: bool, ht: nat, vals: seq<byte>,
                    ac2: bool, ht2: nat)
    requires m1.Valid() && m2.Valid() && ht <= 1 && ht2 <= 1 && (ac != ac2 || ht != ht2)
    requires |vals| <= (if ac2 then 162 else 12) && OnlyTable(m1, m2, vals, ac2, ht2)
    requires LengthsOf(m1.hlen, TableId(ac, ht), listed)
    ensures LengthsOf(m2.hlen, TableId(ac, ht), listed)
  {
    hide Slot;
  }

  lemma FillersStay(m1: Memories, m2: Memories, listed: seq<byte>, ac: bool, ht: nat, vals: seq<byte>,
                    ac2: bool, ht2: nat)
    requires m1.Valid() && m2.Valid() && ht <= 1 && ht2 <= 1 && (ac != ac2 || ht != ht2)
    requires |vals| <= (if ac2 then 162 else 12) && OnlyTable(m1, m2, vals, ac2, ht2)
    requires Fillers(m1.huffenc, ac, ht, listed)
    ensures Fillers(m2.huffenc, ac, ht, listed)
  {
    hide Slot;
    forall v: byte | Legal(v, ac) && v !in listed
      ensures m2.huffenc[EncoderBase(ac, ht) + Slot(v, ac)] == 0xfff
    {
      assert 0 <= Slot(v, ac) < if ac then 162 else 12;
    }
  }

  lemma SymbolsStay(m1: Memories, m2: Memories, defs: seq<TableDef>, ac: bool, ht: nat, vals: seq<byte>,
                    ac2: bool, ht2: nat)
    requires m1.Valid() && m2.Valid() && ht <= 1 && ht2 <= 1 && (ac != ac2 || ht != ht2)
    requires |vals| <= (if ac2 then 162 else 12) && OnlyTable(m1, m2, vals, ac2, ht2)
    requires m1.SharedBytes() && m2.SharedBytes()
    ensures ac ==> forall listed: seq<byte> :: |listed| <= 162 && SymbolsHeld(m1, listed, ac, ht) ==>
      SymbolsHeld(m2, listed, ac, ht)
    ensures !ac && SymbolsMerged(m1, defs, ht) ==> SymbolsMerged(m2, defs, ht)
  {
    hide OnlyTable, Nibble, MergedSymbol, Memories.SharedBytes;
    if ac {
      forall i | SymbolBase(ac, ht) <= i < SymbolBase(ac, ht) + 162
        ensures m2.heb[i] == m1.heb[i]
      {
        SymbolStays(m1, m2, i - SymbolBase(ac, ht), ac, ht, vals, ac2, ht2);
      }
    } else {
      forall i | 162 <= i < 174
        ensures Nibble(m2.heb[i], ht) == Nibble(m1.heb[i], ht)
      {
        SymbolStays(m1, m2, i - 162, ac, ht, vals, ac2, ht2);
      }
    }
  }

  /** Every other table. */
  lemma OtherState(m1: Memories, m2: Memories, defs: seq<TableDef>, ac: bool, ht: nat, vals: seq<byte>,
                   ac2: bool, ht2: nat)
    requires m1.Valid() && m2.Valid() && ht <= 1 && ht2 <= 1 && (ac != ac2 || ht != ht2)
    requires |vals| <= (if ac2 then 162 else 12) && OnlyTable(m1, m2, vals, ac2, ht2)
    requires m1.SharedBytes() && m2.SharedBytes() && TableState(m1, defs, ac, ht)
    ensures TableState(m2, defs, ac, ht)
  {
    var d := Definition(defs, ac, ht);
    UsableIsValid(d, ac);
    hide Usable, CodesHeld, AddressesHeld, MinHolds, Definition, Listed, OnlyTable, LengthsOf, Fillers;
    hide SymbolsMerged, SymbolsHeld, Memories.SharedBytes;
    CodesStillHeld(m1, m2, d, ac, ht, vals, ac2, ht2);
    AddressesStillHeld(m1, m2, d, ac, ht, vals, ac2, ht2);
    MinStaysSmallest(m1, m2, d.Sizes(), ac, ht, vals, ac2, ht2);
    LengthsStay(m1, m2, Listed(defs, ac, ht), ac, ht, vals, ac2, ht2);
    FillersStay(m1, m2, Listed(defs, ac, ht), ac, ht, vals, ac2, ht2);
    SymbolsStay(m1, m2, defs, ac, ht, vals, ac2, ht2);
  }

  /** The other tables have no new definition. */
  lemma SameState(m: Memories, defs: seq<TableDef>, i: nat, ac: bool, ht: nat)
    requires m.Valid() && ht <= 1 && i < |defs| && !Defines(defs[i], ac, ht) && TableState(m, defs[..i], ac, ht)
    ensures TableState(m, defs[..i + 1], ac, ht)
  {
    hide Usable, CodesHeld, AddressesHeld, MinHolds, Definition, Listed, MergedSymbol, LengthsOf, Fillers,
      SymbolsHeld, Nibble;
    NextDefinition(defs, i, ac, ht);
  }

  lemma InstallStep(m1: Memories, m2: Memories, defs: seq<TableDef>, i: nat)
    requires i < |defs| && defs[i].ht <= 1 && Usable(defs[i].d, defs[i].ac) && AllHold(m1, defs[..i]) && m2.Valid()
    requires Stored(m1, m2, defs[i].d, defs[i].ac, defs[i].ht)
    ensures AllHold(m2, defs[..i + 1])
  {
    var def, front, more := defs[i], defs[..i], defs[..i + 1];
    UsableIsValid(def.d, def.ac);
    assert OnlyTable(m1, m2, def.d.vals, def.ac, def.ht);
    OnlyTableBytes(m1, m2, def.d.vals, def.ac, def.ht);
    hide Usable, Stored, TableState, OnlyTable, Memories.SharedBytes, Memories.TwelveBits;
    forall ac: bool, ht: nat | ht <= 1
      ensures TableState(m2, more, ac, ht)
    {
      assert TableState(m1, front, ac, ht);
      if Defines(def, ac, ht) {
        DefinedState(m1, m2, defs, i, ac, ht);
      } else {
        OtherState(m1, m2, front, ac, ht, def.d.vals, def.ac, def.ht);
        SameState(m2, defs, i, ac, ht);
      }
    }
  }

  /** One more definition of the file. */
  method InstallNext(g: TabGen, defs: seq<TableDef>, i: nat)
    requires g.Valid() && ValidDefs(defs) && i < |defs| && AllHold(g.Snapshot(), defs[..i])
    modifies g.hea, g.heb, g.min, g.huffenc, g.hcode, g.hlen
    ensures AllHold(g.Snapshot(), defs[..i + 1])
  {
    hide Usable, TableState, Stored, TabGen.Loaded, TabGen.Kept, Memories.SharedBytes, Memories.TwelveBits;
    ghost var m, def := g.Snapshot(), defs[i];
    UsableIsValid(def.d, def.ac);
    g.Install(defs[i].d, defs[i].ac, defs[i].ht);
    LoadedIsStored(g, m, def.d, def.ac, def.ht);
    hide AllHold;
    InstallStep(m, g.Snapshot(), defs, i);
  }

  /** The definitions of a file, in the order they come in. */
  method Generate(defs: seq<TableDef>) returns (g: TabGen)
    requires ValidDefs(defs)
    ensures fresh(g) && g.Valid() && AllHold(g.Snapshot(), defs)
  {
    hide ValidDefs, AllHold;
    g := new TabGen();
    FreshHolds(g);
    assert defs[..0] == [];
    for i := 0 to |defs|
      invariant g.Valid() && AllHold(g.Snapshot(), defs[..i])
      invariant fresh(g) && fresh(g.hea) && fresh(g.heb) && fresh(g.min) && fresh(g.huffenc) && fresh(g.hcode)
        && fresh(g.hlen)
    {
      InstallNext(g, defs, i);
    }
    assert defs[..|defs|] == defs;
  }

  /** What the programs that read a table need of the memories. */
  lemma TableHeld(m: Memories, defs: seq<TableDef>, ac: bool, ht: nat)
    requires AllHold(m, defs) && ht <= 1 && NoneDropped(defs, ac, ht)
    ensures m.TwelveBits()
    ensures Usable(Definition(defs, ac, ht), ac) && CodesHeld(m, Definition(defs, ac, ht), ac, ht)
    ensures NoStrays(m.hlen, TableId(ac, ht), Definition(defs, ac, ht).vals)
    ensures Fillers(m.huffenc, ac, ht, Definition(defs, ac, ht).vals)
  {
    hide Usable, CodesHeld, NoStrays, Fillers, Definition, NoneDropped, AddressesHeld, MinHolds, LengthsOf;
    assert TableState(m, defs, ac, ht);
    DroppedSymbolsStay(m, defs, ac, ht);
  }
}
