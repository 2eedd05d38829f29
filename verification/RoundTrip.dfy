/** The codec as a whole: tables are generated from the definitions of a file, loaded by both
    programs, and a scan is encoded, copied and decoded. */
module RoundTrip {
  import opened Words
  import opened CanonicalCodes
  import opened HuffmanTables
  import opened TableGenerator
  import opened CodecTables
  import opened TableLoading
  import opened Framing
  import opened ScanCoding
  import opened ScanLayout
  import opened ScanCopy
  import opened EntropyEncoder
  import opened EntropyDecoder

  /** The symbols that the definitions provide. */
  ghost function SymbolsOf(d: Dht): set<nat> {
    set k: nat | k < |d.vals| :: d.vals[k] as nat
  }

  ghost predicate ValidSelectors(h: seq<nat>) {
    |h| == 4 && forall j :: 0 <= j < 4 ==> h[j] < 2
  }

  ghost function AlphabetOf(hd: seq<nat>, ha: seq<nat>, dc: seq<Dht>, ac: seq<Dht>): (a: Alphabet)
    requires ValidSelectors(hd) && ValidSelectors(ha) && |dc| == |ac| == 2
    ensures a.Valid()
  {
    Alphabet(seq(4, j requires 0 <= j < 4 => SymbolsOf(dc[hd[j]])),
             seq(4, j requires 0 <= j < 4 => SymbolsOf(ac[ha[j]])))
  }

  /** The four tables as the definitions of a file give them. */
  ghost function DcDefinitions(defs: seq<TableDef>): (dc: seq<Dht>)
    ensures |dc| == 2
  {
    [Definition(defs, false, 0), Definition(defs, false, 1)]
  }

  ghost function AcDefinitions(defs: seq<TableDef>): (ac: seq<Dht>)
    ensures |ac| == 2
  {
    [Definition(defs, true, 0), Definition(defs, true, 1)]
  }

  /** Both programs' tables of a class and destination, from the generator's memories. */
  method LoadPair(g: TabGen, ac: bool, ht: nat, ghost defs: seq<TableDef>) returns (enc: CodeTable, dec: WindowTable)
    requires g.Valid() && ht <= 1 && AllHold(g.Snapshot(), defs) && NoneDropped(defs, ac, ht)
    ensures Usable(Definition(defs, ac, ht), ac)
    ensures EncoderTable(enc, Definition(defs, ac, ht), ac) && DecoderTable(dec, Definition(defs, ac, ht), ac)
  {
    hide AllHold, Usable, EncoderTable, DecoderTable, CodesHeld, NoStrays, Fillers, Definition, NoneDropped;
    ghost var m := g.Snapshot();
    TableHeld(m, defs, ac, ht);
    UsableIsValid(Definition(defs, ac, ht), ac);
    enc := LoadEncoderTable(g.huffenc[..], Definition(defs, ac, ht), ac, ht, m);
    dec := LoadDecoderTable(g.hcode[..], g.hlen[..], Definition(defs, ac, ht), ac, ht, m);
  }

  /** The four tables of both programs, from one file. */
  method LoadAll(defs: seq<TableDef>)
    returns (edc: seq<CodeTable>, eac: seq<CodeTable>, ddc: seq<WindowTable>, dac: seq<WindowTable>)
    requires ValidDefs(defs) && NothingDropped(defs)
    ensures |edc| == |eac| == |ddc| == |dac| == 2
    ensures forall t :: 0 <= t < 2 ==>
      && Usable(DcDefinitions(defs)[t], false) && Usable(AcDefinitions(defs)[t], true)
      && EncoderTable(edc[t], DcDefinitions(defs)[t], false) && DecoderTable(ddc[t], DcDefinitions(defs)[t], false)
      && EncoderTable(eac[t], AcDefinitions(defs)[t], true) && DecoderTable(dac[t], AcDefinitions(defs)[t], true)
  {
    hide ValidDefs, AllHold, Usable, EncoderTable, DecoderTable, Definition, NoneDropped;
    var g := Generate(defs);
    var e, d := LoadPair(g, false, 0, defs);
    var e1, d1 := LoadPair(g, false, 1, defs);
    var e2, d2 := LoadPair(g, true, 0, defs);
    var e3, d3 := LoadPair(g, true, 1, defs);
    edc, ddc, eac, dac := [e, e1], [d, d1], [e2, e3], [d2, d3];
  }

  /** The scans that a set of tables can carry: quantised coefficients of 8-bit samples, and no
      symbol the definitions do not list. */
  ghost predicate Carried(mcus: seq<Mcu>, nc: seq<nat>, restart: bool, nrst: nat, hd: seq<nat>, ha: seq<nat>,
                          defs: seq<TableDef>)
    requires ValidSelectors(hd) && ValidSelectors(ha)
  {
    && ValidMcus(mcus) && McusInRange(mcus)
    && (forall i :: 0 <= i < |mcus| ==> Decoder.HasShape(mcus[i], nc))
    && ScanUses(mcus, 0, restart, nrst, AlphabetOf(hd, ha, DcDefinitions(defs), AcDefinitions(defs)))
  }

  lemma EncoderTablesComplete(edc: CodeTable, eac: CodeTable, dc: Dht, ac: Dht)
    requires dc.Valid(false) && ac.Valid(true) && EncoderTable(edc, dc, false) && EncoderTable(eac, ac, true)
    ensures Encoder.ValidTable(edc, 16) && Encoder.ValidTable(eac, 256)
    ensures forall v :: 0 <= v <= 11 ==> edc.len[v] != 0
    ensures forall v :: 1 <= v <= 10 ==> eac.len[v] != 0
  {
    hide HuffCode, HuffSize, Dht.Valid;
    forall v | 0 <= v < 16
      ensures edc.len[v] <= 16 && (v <= 11 ==> edc.len[v] != 0)
    {
      var b: byte := v;
      assert edc.len[b] <= 16;
    }
    forall v | 0 <= v < 256
      ensures eac.len[v] <= 16 && (1 <= v <= 10 ==> eac.len[v] != 0)
    {
      var b: byte := v;
      assert eac.len[b] <= 16;
    }
  }

  lemma AllSymbolsMatch(enc: CodeTable, dec: WindowTable, d: Dht, ac: bool)
    requires Usable(d, ac) && EncoderTable(enc, d, ac) && DecoderTable(dec, d, ac)
    ensures |dec.symbol| == FULL && Decoder.MatchesAll(SymbolsOf(d), enc, dec)
  {
    hide Usable, EncoderTable, Matches, SerialDecode;
    forall v: nat | v in SymbolsOf(d)
      ensures v < 256 && Matches(enc, dec, v)
    {
      ListedMatches(enc, dec, d, ac, v);
    }
  }

  /** The programs' view of the tables agrees. */
  ghost predicate TablesAgree(l: Layout, w: Windows, a: Alphabet) {
    && l.Valid() && w.Valid() && a.Valid()
    && (forall t :: 0 <= t < 2 ==> Encoder.ValidTable(l.dc[t], 16) && Encoder.ValidTable(l.ac[t], 256))
    && (forall t, v :: 0 <= t < 2 && 0 <= v <= 11 ==> l.dc[t].len[v] != 0)
    && (forall t, v :: 0 <= t < 2 && 1 <= v <= 10 ==> l.ac[t].len[v] != 0)
    && (forall j :: 0 <= j < 4 ==>
          Decoder.MatchesAll(a.dc[j], l.Dc(j), w.Dc(j)) && Decoder.MatchesAll(a.ac[j], l.Ac(j), w.Ac(j)))
  }

  lemma PairAgrees(edc: CodeTable, eac: CodeTable, ddc: WindowTable, dac: WindowTable, dc: Dht, ac: Dht)
    requires Usable(dc, false) && Usable(ac, true) && EncoderTable(edc, dc, false) && EncoderTable(eac, ac, true)
    requires DecoderTable(ddc, dc, false) && DecoderTable(dac, ac, true)
    ensures Encoder.ValidTable(edc, 16) && Encoder.ValidTable(eac, 256)
    ensures forall v :: 0 <= v <= 11 ==> edc.len[v] != 0
    ensures forall v :: 1 <= v <= 10 ==> eac.len[v] != 0
    ensures |ddc.symbol| == FULL && Decoder.MatchesAll(SymbolsOf(dc), edc, ddc)
    ensures |dac.symbol| == FULL && Decoder.MatchesAll(SymbolsOf(ac), eac, dac)
  {
    hide Usable, EncoderTable, DecoderTable, Decoder.MatchesAll, SymbolsOf;
    UsableIsValid(dc, false);
    UsableIsValid(ac, true);
    EncoderTablesComplete(edc, eac, dc, ac);
    AllSymbolsMatch(edc, ddc, dc, false);
    AllSymbolsMatch(eac, dac, ac, true);
  }

  method LoadTables(defs: seq<TableDef>, hd: seq<nat>, ha: seq<nat>) returns (l: Layout, w: Windows)
    requires ValidDefs(defs) && NothingDropped(defs) && ValidSelectors(hd) && ValidSelectors(ha)
    ensures TablesAgree(l, w, AlphabetOf(hd, ha, DcDefinitions(defs), AcDefinitions(defs)))
  {
    hide Usable, EncoderTable, DecoderTable, HuffCode, HuffSize, Kraft, Pow2, Matches, Decoder.MatchesAll, Definition;
    hide ValidDefs, NothingDropped, Encoder.ValidTable, DcDefinitions, AcDefinitions, SymbolsOf;
    var edc, eac, ddc, dac := LoadAll(defs);
    ghost var dc, ac := DcDefinitions(defs), AcDefinitions(defs);
    PairAgrees(edc[0], eac[0], ddc[0], dac[0], dc[0], ac[0]);
    PairAgrees(edc[1], eac[1], ddc[1], dac[1], dc[1], ac[1]);
    l, w := Layout(hd, ha, edc, eac), Windows(hd, ha, ddc, dac);
  }

  // ---- the registers

  /** The number of MCUs that the decoder makes of its register, which holds one less. */
  function DecoderCount(register: nat): (n: nat) {
    register % 0x400_0000 + 1
  }

  /** And the restart interval, again less one. The encoder takes both registers whole. */
  function DecoderInterval(register: nat): (nrst: nat) {
    register % 0x1_0000
  }

  predicate InRegisters(n: nat, restart: bool, nrst: nat) {
    1 <= n <= 0x400_0000 && (restart && nrst >= 0x1_0000 ==> n <= DecoderInterval(nrst) + 1)
  }

  /** Two restart settings cut a scan of n MCUs at the same places. */
  ghost predicate SameIntervals(n: nat, restart: bool, nrst: nat, nrst': nat) {
    forall start: nat :: start <= n ==> IntervalEnd(start, n, restart, nrst) == IntervalEnd(start, n, restart, nrst')
  }

  /** Both programs have the same scan before them exactly if it fits the decoder's registers. */
  lemma RegistersAgree(n: nat, restart: bool, nrst: nat)
    requires n > 0
    ensures DecoderCount(n - 1) == n && SameIntervals(n, restart, nrst, DecoderInterval(nrst)) <==>
            n <= 67108864 && (restart && nrst >= 65536 ==> n <= nrst % 65536 + 1)
    ensures InRegisters(n, restart, nrst) <==> n <= 67108864 && (restart && nrst >= 65536 ==> n <= nrst % 65536 + 1)
  {
    var cut := DecoderInterval(nrst);
    if restart && nrst >= 0x1_0000 && n > cut + 1 {
      assert IntervalEnd(0, n, restart, nrst) != IntervalEnd(0, n, restart, cut);
    }
  }

  lemma {:induction false} SameSegments(mcus: seq<Mcu>, start: nat, restart: bool, nrst: nat, nrst': nat, l: Layout)
    requires start <= |mcus| && ValidMcus(mcus) && l.Valid() && SameIntervals(|mcus|, restart, nrst, nrst')
    ensures Segments(mcus, start, restart, nrst, l) == Segments(mcus, start, restart, nrst', l)
    decreases |mcus| - start
  {
    hide McusBits;
    var e := IntervalEnd(start, |mcus|, restart, nrst);
    assert e == IntervalEnd(start, |mcus|, restart, nrst');
    if e == |mcus| {
    } else {
      SameSegments(mcus, e, restart, nrst, nrst', l);
    }
  }

  lemma {:induction false} SameUses(mcus: seq<Mcu>, start: nat, restart: bool, nrst: nat, nrst': nat, a: Alphabet)
    requires start <= |mcus| && a.Valid() && SameIntervals(|mcus|, restart, nrst, nrst')
    ensures ScanUses(mcus, start, restart, nrst, a) == ScanUses(mcus, start, restart, nrst', a)
    decreases |mcus| - start
  {
    hide McusUse;
    var e := IntervalEnd(start, |mcus|, restart, nrst);
    assert e == IntervalEnd(start, |mcus|, restart, nrst');
    if e == |mcus| {
    } else {
      SameUses(mcus, e, restart, nrst, nrst', a);
    }
  }

  /** The whole chain. Every scan that the tables can carry is encoded without an error exit,
      copied unchanged, and decoded to exactly the same blocks; no error exit of the decoder is
      taken, and every restart marker has the number expected. */
  method CodecRoundTrip(defs: seq<TableDef>, hd: seq<nat>, ha: seq<nat>,
                        mcus: seq<Mcu>, nc: seq<nat>, restart: bool, nrst: nat, before: seq<byte>, after: seq<byte>)
    returns (encoded: bool, copied: bool, decoded: seq<Mcu>, warned: bool, exited: bool)
    requires ValidDefs(defs) && NothingDropped(defs) && ValidSelectors(hd) && ValidSelectors(ha)
    requires Carried(mcus, nc, restart, nrst, hd, ha, defs) && InRegisters(|mcus|, restart, nrst)
    ensures encoded && copied && decoded == mcus && !warned && !exited
  {
    hide ValidDefs, NothingDropped, AlphabetOf, Encoder.ValidTable, Decoder.MatchesAll, ScanUses, Segments, IsScan,
      Frame, McusInRange, Decoder.HasShape, SameIntervals, DecoderInterval, CopyFrom;
    ghost var a := AlphabetOf(hd, ha, DcDefinitions(defs), AcDefinitions(defs));
    var l, w := LoadTables(defs, hd, ha);
    var encoder := new Encoder(l);
    encoded := encoder.EncodeScan(mcus, restart, nrst);
    CopyIsIdentity(before, Segments(mcus, 0, restart, nrst, l), 0, after);
    var copy := CopyScan(before + encoder.out + after, |before|);
    copied := copy.ToEndOfImage?;
    var decoder := new Decoder(copy.out, w);
    RegistersAgree(|mcus|, restart, nrst);
    SameSegments(mcus, 0, restart, nrst, DecoderInterval(nrst), l);
    SameUses(mcus, 0, restart, nrst, DecoderInterval(nrst), a);
    decoded, warned := decoder.DecodeScan(DecoderCount(|mcus| - 1), nc, restart, DecoderInterval(nrst), mcus, l, a);
    exited := decoder.exited;
  }
}
