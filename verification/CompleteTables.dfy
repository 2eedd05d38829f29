/** With complete table definitions nothing about a scan can stop the codec. */
module CompleteTables {
  import opened Words
  import opened Coefficients
  import opened HuffmanTables
  import opened TableLoading
  import opened ScanCoding
  import opened RoundTrip
  import Quantiser

  ghost predicate CompleteDc(symbols: set<nat>) {
    forall v: nat :: v <= 11 ==> v in symbols
  }

  ghost predicate CompleteAc(symbols: set<nat>) {
    forall v: nat :: v < 256 && Legal(v, true) ==> v in symbols
  }

  /** Every symbol that a baseline coder may need is provided for the first n components. */
  ghost predicate Complete(a: Alphabet, n: nat)
    requires a.Valid() && n <= 4
  {
    forall j :: 0 <= j < n ==> CompleteDc(a.dc[j]) && CompleteAc(a.ac[j])
  }

  ghost predicate Components(mcus: seq<Mcu>, n: nat) {
    forall i :: 0 <= i < |mcus| ==> |mcus[i]| == n
  }

  lemma AcSymbolsStep(zz: Block, i: nat)
    requires 1 <= i <= 64
    ensures AcSymbols(zz, i) ==
      if i == 64 then [] else
        var n := NextNonzero(zz, i);
        if n == 64 then [EOB]
        else if n - i >= 16 then [ZRL] + AcSymbols(zz, i + 16)
        else [(n - i) * 16 + Size(zz[n])] + AcSymbols(zz, n + 1)
  {
    hide Size, NextNonzero;
  }

  lemma EobAndZrl()
    ensures Legal(EOB, true) && Legal(ZRL, true)
  {
  }

  lemma RunAndSize(run: nat, size: nat)
    requires run < 16 && 1 <= size <= 10
    ensures run * 16 + size < 256 && Legal(run * 16 + size, true)
  {
  }

  lemma AcSize(x: int)
    requires x != 0 && -1023 <= x <= 1023
    ensures 1 <= Size(x) <= 10
  {
    hide Pow2, BitLength;
    assert Pow2(0) == 1 && Pow2(10) == 1024 by { Quantiser.TenthPowers(); }
    SizeRange(x, 10);
    SizeRange(x, 0);
  }

  /** Coefficients of at most ten bits only lead to the 162 symbols of a complete AC table. */
  lemma {:induction false} AcSymbolsLegal(zz: Block, i: nat)
    requires InRange(zz) && 1 <= i <= 64
    ensures forall v: nat :: v in AcSymbols(zz, i) ==> v < 256 && Legal(v, true)
    decreases 64 - i
  {
    hide Size, Legal, NextNonzero;
    assert Legal(EOB, true) && Legal(ZRL, true) by { EobAndZrl(); }
    AcSymbolsStep(zz, i);
    hide AcSymbols;
    if i == 64 {
    } else {
      var n := NextNonzero(zz, i);
      if n == 64 {
      } else if n - i >= 16 {
        AcSymbolsLegal(zz, i + 16);
      } else {
        AcSymbolsLegal(zz, n + 1);
        AcSize(zz[n]);
        RunAndSize(n - i, Size(zz[n]));
      }
    }
  }

  lemma EightIsCube()
    ensures Pow2(3) == 8
  {
  }

  lemma DcSize(x: int)
    requires -2047 <= x <= 2047
    ensures Size(x) <= 11
  {
    hide Pow2, BitLength;
    assert Pow2(11) == 2048 by { Pow2Values(); Pow2Add(8, 3); assert Pow2(3) == 8 by { EightIsCube(); } }
    SizeRange(x, 11);
  }

  lemma BlockUsesLegal(zz: Block, pred: int, dc: set<nat>, ac: set<nat>)
    requires InRange(zz) && -1024 <= pred <= 1023 && CompleteDc(dc) && CompleteAc(ac)
    ensures BlockUses(zz, pred, dc, ac)
  {
    hide Size, Legal;
    AcSymbolsLegal(zz, 1);
    DcSize(zz[0] - pred);
  }

  lemma {:induction false} BlocksUseLegal(blocks: seq<Block>, pred: int, dc: set<nat>, ac: set<nat>)
    requires (forall k :: 0 <= k < |blocks| ==> InRange(blocks[k])) && -1024 <= pred <= 1023
    requires CompleteDc(dc) && CompleteAc(ac)
    ensures BlocksUse(blocks, pred, dc, ac)
  {
    if blocks == [] {
    } else {
      BlockUsesLegal(blocks[0], pred, dc, ac);
      BlocksUseLegal(blocks[1..], blocks[0][0], dc, ac);
    }
  }

  lemma McuUsesLegal(mcu: Mcu, pdc: Predictors, a: Alphabet)
    requires McuInRange(mcu) && PredictorsInRange(pdc) && a.Valid() && Complete(a, |mcu|)
    ensures McuUses(mcu, pdc, a)
  {
    hide InRange, BlocksUse, CompleteDc, CompleteAc;
    forall j | 0 <= j < |mcu|
      ensures BlocksUse(mcu[j], pdc[j], a.dc[j], a.ac[j])
    {
      BlocksUseLegal(mcu[j], pdc[j], a.dc[j], a.ac[j]);
    }
  }

  lemma {:induction false} McusUseLegal(mcus: seq<Mcu>, pdc: Predictors, a: Alphabet, n: nat)
    requires McusInRange(mcus) && PredictorsInRange(pdc) && n <= 4 && Components(mcus, n) && a.Valid() && Complete(a, n)
    ensures McusUse(mcus, pdc, a)
  {
    hide Complete, McuInRange, McuUses, PredictorsInRange, NextPredictors;
    if mcus == [] {
    } else {
      assert McuInRange(mcus[0]) && |mcus[0]| == n;
      McuUsesLegal(mcus[0], pdc, a);
      NextPredictorsInRange(mcus[0], pdc);
      McusUseLegal(mcus[1..], NextPredictors(mcus[0], pdc), a, n);
    }
  }

  /** Complete tables provide for every scan of in-range coefficients, however it is divided
      into restart intervals. */
  lemma {:induction false} ScanUsesLegal(mcus: seq<Mcu>, start: nat, restart: bool, nrst: nat, a: Alphabet, n: nat)
    requires McusInRange(mcus) && n <= 4 && Components(mcus, n) && start <= |mcus| && a.Valid() && Complete(a, n)
    ensures ScanUses(mcus, start, restart, nrst, a)
    decreases |mcus| - start
  {
    hide Complete, McuInRange, McusUse;
    var e := IntervalEnd(start, |mcus|, restart, nrst);
    McusUseLegal(mcus[start..e], ZEROS, a, n);
    if e == |mcus| {
    } else {
      ScanUsesLegal(mcus, e, restart, nrst, a, n);
    }
  }

  /** A definition lists every symbol its class can have. */
  ghost predicate ListsAll(d: Dht, ac: bool) {
    forall v: byte :: Legal(v, ac) ==> v in d.vals
  }

  lemma ListedIsComplete(d: Dht)
    ensures ListsAll(d, false) ==> CompleteDc(SymbolsOf(d))
    ensures ListsAll(d, true) ==> CompleteAc(SymbolsOf(d))
  {
    forall v: nat | v <= 11 && ListsAll(d, false)
      ensures v in SymbolsOf(d)
    {
      var b: byte := v;
      assert b in d.vals;
    }
    forall v: nat | v < 256 && Legal(v, true) && ListsAll(d, true)
      ensures v in SymbolsOf(d)
    {
      var b: byte := v;
      assert b in d.vals;
    }
  }

  /** The file defines complete tables for the first n components. */
  ghost predicate DefinesAll(defs: seq<TableDef>, hd: seq<nat>, ha: seq<nat>, n: nat)
    requires ValidSelectors(hd) && ValidSelectors(ha) && n <= 4
  {
    forall j :: 0 <= j < n ==>
      ListsAll(Definition(defs, false, hd[j]), false) && ListsAll(Definition(defs, true, ha[j]), true)
  }

  lemma CompleteDefinitions(defs: seq<TableDef>, hd: seq<nat>, ha: seq<nat>, n: nat)
    requires ValidSelectors(hd) && ValidSelectors(ha) && n <= 4 && DefinesAll(defs, hd, ha, n)
    ensures Complete(AlphabetOf(hd, ha, DcDefinitions(defs), AcDefinitions(defs)), n)
  {
    hide ListsAll, CompleteDc, CompleteAc, SymbolsOf, Definition;
    forall j | 0 <= j < n
      ensures CompleteDc(SymbolsOf(DcDefinitions(defs)[hd[j]])) && CompleteAc(SymbolsOf(AcDefinitions(defs)[ha[j]]))
    {
      ListedIsComplete(Definition(defs, false, hd[j]));
      ListedIsComplete(Definition(defs, true, ha[j]));
    }
  }
}
