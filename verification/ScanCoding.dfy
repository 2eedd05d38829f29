/** What a baseline scan says, bit by bit: the code of a block (section F.1.2), of an MCU, and
    of the restart intervals an image is cut into. Written without counters or buffers; the
    encoder and the decoder are both proved against it. */
module ScanCoding {
  import opened Words
  import opened Coefficients
  import opened CodecTables
  import opened Framing

  type Block = b: seq<int> | |b| == 64 witness seq(64, _ => 0)

  /** An MCU lists, for each component, its blocks in order. */
  type Mcu = seq<seq<Block>>

  // ---- one block

  function CodeBits(t: CodeTable, v: nat): seq<bool> {
    if v < |t.code| && v < |t.len| then Bits(t.code[v], t.len[v]) else []
  }

  function DcBits(diff: int, t: CodeTable): seq<bool> {
    CodeBits(t, Size(diff)) + MagnitudeBits(diff)
  }

  /** The first nonzero coefficient from i on, or 64. */
  function NextNonzero(zz: Block, i: nat): (n: nat)
    requires i <= 64
    ensures i <= n <= 64
    ensures n < 64 ==> zz[n] != 0
    ensures forall j :: i <= j < n ==> zz[j] == 0
    decreases 64 - i
  {
    if i == 64 || zz[i] != 0 then i else NextNonzero(zz, i + 1)
  }

  const EOB: nat := 0
  const ZRL: nat := 240

  /** The AC coefficients from i on: a run of 16 zeros before another nonzero one is ZRL, a
      shorter run is part of the nonzero coefficient's symbol, trailing zeros are EOB. */
  function AcBits(zz: Block, i: nat, t: CodeTable): seq<bool>
    requires i <= 64
    decreases 64 - i
  {
    if i == 64 then []
    else
      var n := NextNonzero(zz, i);
      if n == 64 then CodeBits(t, EOB)
      else if n - i >= 16 then CodeBits(t, ZRL) + AcBits(zz, i + 16, t)
      else CodeBits(t, (n - i) * 16 + Size(zz[n])) + MagnitudeBits(zz[n]) + AcBits(zz, n + 1, t)
  }

  /** The AC symbols that the coefficients from i on are coded with. */
  function AcSymbols(zz: Block, i: nat): seq<nat>
    requires i <= 64
    decreases 64 - i
  {
    if i == 64 then []
    else
      var n := NextNonzero(zz, i);
      if n == 64 then [EOB]
      else if n - i >= 16 then [ZRL] + AcSymbols(zz, i + 16)
      else [(n - i) * 16 + Size(zz[n])] + AcSymbols(zz, n + 1)
  }

  function BlockBits(zz: Block, pred: int, dc: CodeTable, ac: CodeTable): seq<bool> {
    DcBits(zz[0] - pred, dc) + AcBits(zz, 1, ac)
  }

  // ---- MCUs

  /** Which tables each component uses. */
  datatype Layout = Layout(hd: seq<nat>, ha: seq<nat>, dc: seq<CodeTable>, ac: seq<CodeTable>) {
    predicate Valid() {
      && |hd| == |ha| == 4 && |dc| == |ac| == 2
      && forall j :: 0 <= j < 4 ==> hd[j] < 2 && ha[j] < 2
    }

    function Dc(j: nat): CodeTable
      requires Valid() && j < 4
    {
      dc[hd[j]]
    }

    function Ac(j: nat): CodeTable
      requires Valid() && j < 4
    {
      ac[ha[j]]
    }
  }

  /** Predictors of the four components. */
  type Predictors = p: seq<int> | |p| == 4 witness [0, 0, 0, 0]

  const ZEROS: Predictors := [0, 0, 0, 0]

  function BlocksBits(blocks: seq<Block>, pred: int, dc: CodeTable, ac: CodeTable): seq<bool> {
    if blocks == [] then []
    else BlockBits(blocks[0], pred, dc, ac) + BlocksBits(blocks[1..], blocks[0][0], dc, ac)
  }

  function LastDc(blocks: seq<Block>, pred: int): int {
    if blocks == [] then pred else blocks[|blocks| - 1][0]
  }

  /** Components j, j + 1, ... of an MCU. */
  function McuBits(mcu: Mcu, j: nat, pdc: Predictors, l: Layout): seq<bool>
    requires |mcu| <= 4 && j <= |mcu| && l.Valid()
    decreases |mcu| - j
  {
    if j == |mcu| then []
    else BlocksBits(mcu[j], pdc[j], l.Dc(j), l.Ac(j)) + McuBits(mcu, j + 1, pdc, l)
  }

  function NextPredictors(mcu: Mcu, pdc: Predictors): Predictors
    requires |mcu| <= 4
  {
    seq(4, j requires 0 <= j < 4 => if j < |mcu| then LastDc(mcu[j], pdc[j]) else pdc[j])
  }

  ghost predicate ValidMcus(mcus: seq<Mcu>) {
    forall i :: 0 <= i < |mcus| ==> |mcus[i]| <= 4
  }

  function McusBits(mcus: seq<Mcu>, pdc: Predictors, l: Layout): seq<bool>
    requires ValidMcus(mcus) && l.Valid()
  {
    if mcus == [] then []
    else McuBits(mcus[0], 0, pdc, l) + McusBits(mcus[1..], NextPredictors(mcus[0], pdc), l)
  }

  // ---- restart intervals

  /** The first interval takes all MCUs, or with restarts at most nrst + 1 of them. */
  function IntervalEnd(start: nat, n: nat, restart: bool, nrst: nat): (e: nat)
    requires start <= n
    ensures start <= e <= n && (start < n ==> start < e)
  {
    if restart && start + nrst + 1 < n then start + nrst + 1 else n
  }

  /** One bit string per restart interval; prediction starts from zero in each. */
  function Segments(mcus: seq<Mcu>, start: nat, restart: bool, nrst: nat, l: Layout): (segs: seq<seq<bool>>)
    requires start <= |mcus| && ValidMcus(mcus) && l.Valid()
    ensures segs != []
    decreases |mcus| - start
  {
    var e := IntervalEnd(start, |mcus|, restart, nrst);
    [McusBits(mcus[start..e], ZEROS, l)] +
    if e < |mcus| then Segments(mcus, e, restart, nrst, l) else []
  }

  /** The bytes of a whole scan. */
  function ScanBytes(mcus: seq<Mcu>, restart: bool, nrst: nat, l: Layout): seq<byte>
    requires ValidMcus(mcus) && l.Valid()
  {
    Frame(Segments(mcus, 0, restart, nrst, l), 0)
  }

  // ---- the symbols a scan needs

  /** For each component, the symbols its tables provide. */
  datatype Alphabet = Alphabet(dc: seq<set<nat>>, ac: seq<set<nat>>) {
    predicate Valid() {
      |dc| == |ac| == 4
    }
  }

  ghost predicate BlockUses(zz: Block, pred: int, dc: set<nat>, ac: set<nat>) {
    Size(zz[0] - pred) in dc && forall v: nat :: v in AcSymbols(zz, 1) ==> v in ac
  }

  ghost predicate BlocksUse(blocks: seq<Block>, pred: int, dc: set<nat>, ac: set<nat>) {
    blocks != [] ==> BlockUses(blocks[0], pred, dc, ac) && BlocksUse(blocks[1..], blocks[0][0], dc, ac)
  }

  ghost predicate McuUses(mcu: Mcu, pdc: Predictors, a: Alphabet)
    requires a.Valid()
  {
    |mcu| <= 4 && forall j :: 0 <= j < |mcu| ==> BlocksUse(mcu[j], pdc[j], a.dc[j], a.ac[j])
  }

  ghost predicate McusUse(mcus: seq<Mcu>, pdc: Predictors, a: Alphabet)
    requires a.Valid()
  {
    mcus != [] ==> McuUses(mcus[0], pdc, a) && McusUse(mcus[1..], NextPredictors(mcus[0], pdc), a)
  }

  /** Every symbol of a scan is in the alphabet; prediction restarts in every interval. */
  ghost predicate ScanUses(mcus: seq<Mcu>, start: nat, restart: bool, nrst: nat, a: Alphabet)
    requires a.Valid() && start <= |mcus|
    decreases |mcus| - start
  {
    var e := IntervalEnd(start, |mcus|, restart, nrst);
    && McusUse(mcus[start..e], ZEROS, a)
    && (e < |mcus| ==> ScanUses(mcus, e, restart, nrst, a))
  }

  // ---- what a baseline coder accepts

  /** Quantised coefficients of 8-bit samples: sizes up to 11 for DC differences, 10 for AC. */
  predicate InRange(zz: Block) {
    && -1024 <= zz[0] <= 1023
    && forall i :: 1 <= i < 64 ==> -1023 <= zz[i] <= 1023
  }

  ghost predicate McuInRange(mcu: Mcu) {
    |mcu| <= 4 && forall j, k :: 0 <= j < |mcu| && 0 <= k < |mcu[j]| ==> InRange(mcu[j][k])
  }

  ghost predicate McusInRange(mcus: seq<Mcu>) {
    forall i :: 0 <= i < |mcus| ==> McuInRange(mcus[i])
  }

  predicate PredictorsInRange(pdc: Predictors) {
    forall j :: 0 <= j < 4 ==> -1024 <= pdc[j] <= 1023
  }

  lemma NextPredictorsInRange(mcu: Mcu, pdc: Predictors)
    requires McuInRange(mcu) && PredictorsInRange(pdc)
    ensures PredictorsInRange(NextPredictors(mcu, pdc))
  {
    forall j | 0 <= j < |mcu|
      ensures -1024 <= LastDc(mcu[j], pdc[j]) <= 1023
    {
      if mcu[j] != [] {
        assert InRange(mcu[j][|mcu[j]| - 1]);
      }
    }
  }

  // ---- unfolding the definitions from the front

  lemma McusBitsStep(mcus: seq<Mcu>, i: nat, e: nat, pdc: Predictors, l: Layout)
    requires i < e <= |mcus| && ValidMcus(mcus) && l.Valid()
    ensures McusBits(mcus[i..e], pdc, l) ==
            McuBits(mcus[i], 0, pdc, l) + McusBits(mcus[i + 1..e], NextPredictors(mcus[i], pdc), l)
  {
    assert mcus[i..e][0] == mcus[i] && mcus[i..e][1..] == mcus[i + 1..e];
  }

  lemma NoMcusNoBits(mcus: seq<Mcu>, i: nat, pdc: Predictors, l: Layout)
    requires i <= |mcus| && ValidMcus(mcus) && l.Valid()
    ensures McusBits(mcus[i..i], pdc, l) == []
  {
  }

  /** The marker that ends the interval from start on, and the bytes after it. */
  function MarkerAfter(e: nat, n: nat, r: nat): (m: byte)
    requires r < 8
  {
    if e < n then RST0 + r else EOI
  }

  function BytesAfter(mcus: seq<Mcu>, e: nat, restart: bool, nrst: nat, l: Layout, r: nat): seq<byte>
    requires e <= |mcus| && ValidMcus(mcus) && l.Valid() && r < 8
  {
    if e < |mcus| then Frame(Segments(mcus, e, restart, nrst, l), (r + 1) % 8) else []
  }

  lemma FrameStep(mcus: seq<Mcu>, start: nat, restart: bool, nrst: nat, l: Layout, r: nat)
    requires start <= |mcus| && ValidMcus(mcus) && l.Valid() && r < 8
    ensures var e := IntervalEnd(start, |mcus|, restart, nrst);
      Frame(Segments(mcus, start, restart, nrst, l), r) ==
      Close(McusBits(mcus[start..e], ZEROS, l)) +
      ([255, MarkerAfter(e, |mcus|, r)] + BytesAfter(mcus, e, restart, nrst, l, r))
  {
    hide McusBits, Close;
    var segs := Segments(mcus, start, restart, nrst, l);
    var e := IntervalEnd(start, |mcus|, restart, nrst);
    if e < |mcus| {
      assert segs[1..] == Segments(mcus, e, restart, nrst, l);
    }
  }

  // ---- run lengths

  lemma {:induction false} NextNonzeroAt(zz: Block, i: nat, n: nat)
    requires i <= n <= 64 && (forall j :: i <= j < n ==> zz[j] == 0) && (n < 64 ==> zz[n] != 0)
    ensures NextNonzero(zz, i) == n
    decreases n - i
  {
    if i == n {
    } else {
      NextNonzeroAt(zz, i + 1, n);
    }
  }
}
