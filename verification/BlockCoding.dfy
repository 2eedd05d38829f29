/** One block through the lossy half of the codec: samples to quantised coefficients in the
    encoder, and back in the decoder. */
module BlockCoding {
  import opened Words
  import opened Coefficients
  import opened Transform
  import opened TransformError
  import opened ZigZag
  import opened Quantiser
  import opened FlatBlocks
  import opened ScanCoding

  /** The quantised coefficients of a block, for one table entry per coefficient. */
  function Encoded(g: Grid, entries: seq<nat>): (zz: Block)
    requires |entries| == 64
  {
    seq(64, k requires 0 <= k < 64 => Quantised(Scanned(Forward(g))[k], Multiplier(entries[k]), Shift(entries[k])))
  }

  function Dequantised(zz: Block, qt: seq<nat>): (r: Block)
    requires |qt| == 64
  {
    seq(64, k requires 0 <= k < 64 => Clamp(zz[k] * qt[k]))
  }

  function Decoded(zz: Block, qt: seq<nat>): Grid
    requires |qt| == 64
  {
    Inverse(Placed(Dequantised(zz, qt)))
  }

  lemma ScannedWithin(g: Grid, lo: int, hi: int)
    requires GridWithin(g, lo, hi)
    ensures forall k :: 0 <= k < 64 ==> lo <= Scanned(g)[k] <= hi
  {
    hide Path;
    forall k | 0 <= k < 64
      ensures lo <= Scanned(g)[k] <= hi
    {
      assert Within(g[Path(k).row], lo, hi);
    }
  }

  /** Whatever the samples and whatever the quantisation file says, the coefficients stay in
      the range for which the entropy coder has codes: its error exits cannot be reached. */
  lemma EncodedInRange(g: Grid, entries: seq<nat>)
    requires GridWithin(g, -128, 127) && |entries| == 64
    ensures InRange(Encoded(g, entries))
  {
    hide Forward, Quantised, Multiplier, Shift, Scanned;
    ForwardRange(g);
    ScannedWithin(Forward(g), -1024, 1023);
    forall k | 0 <= k < 64
      ensures -1023 <= Encoded(g, entries)[k] <= 1023
    {
      QuantisedRange(Scanned(Forward(g))[k], entries[k]);
    }
  }

  /** The encoder's entries for the quantisers of an image. */
  function Reciprocals(qt: seq<nat>): (entries: seq<nat>)
    requires forall k :: 0 <= k < |qt| ==> qt[k] < 256
    ensures |entries| == |qt|
  {
    seq(|qt|, k requires 0 <= k < |qt| => QLook(qt[k]))
  }

  /** For a quantisation file in use, every coefficient that is sent is that of the transform, taken in
      zig-zag order, divided by its quantiser and rounded. */
  lemma EncodedIsDivision(g: Grid, qt: seq<nat>, k: nat)
    requires GridWithin(g, -128, 127) && |qt| == 64 && (forall i :: 0 <= i < 64 ==> 1 <= qt[i] <= 255) && k < 64
    requires Scanned(Forward(g))[k] != -1024
    ensures Encoded(g, Reciprocals(qt))[k] == Quotient(Scanned(Forward(g))[k], qt[k])
  {
    hide Forward, Quantised, Multiplier, Shift, Scanned, QLook, Quotient;
    ForwardRange(g);
    ScannedWithin(Forward(g), -1024, 1023);
    ExactQuotient(Scanned(Forward(g))[k], qt[k]);
  }

  /** Quantising and dequantising leave coefficient k within half its quantiser. */
  ghost predicate WithinHalf(g: Grid, qt: seq<nat>, k: nat)
    requires |qt| == 64 && (forall i :: 0 <= i < 64 ==> qt[i] <= 255) && k < 64
  {
    2 * Abs(Dequantised(Encoded(g, Reciprocals(qt)), qt)[k] - Scanned(Forward(g))[k]) <= qt[k]
  }

  lemma ScannedAc(g: Grid, k: nat)
    requires GridWithin(g, -128, 127) && 0 < k < 64
    ensures -1022 <= Scanned(Forward(g))[k] <= 1022
  {
    hide Forward, Rank;
    Corners();
    assert Path(k) != Cell(0, 0);
    AcRange(g, Path(k).row, Path(k).col);
  }

  /** Every coefficient comes back as a nearest multiple of its quantiser, unless it is the first,
      that is -1024, and its quantiser is one of the eight that miss that. */
  lemma CoefficientsWithinHalf(g: Grid, qt: seq<nat>, k: nat)
    requires GridWithin(g, -128, 127) && |qt| == 64 && (forall i :: 0 <= i < 64 ==> qt[i] <= 255)
    requires k < 64 && qt[k] != 0
    ensures WithinHalf(g, qt, k) <==> k > 0 || Scanned(Forward(g))[0] != -1024 || !Missed(qt[0])
  {
    hide Forward, Quantised, Multiplier, Shift, Scanned, QLook, Missed;
    ForwardRange(g);
    ScannedWithin(Forward(g), -1024, 1023);
    NearestMultiple(Scanned(Forward(g))[k], qt[k]);
    if k > 0 {
      ScannedAc(g, k);
    }
  }

  lemma FirstCell(n: int)
    ensures Scanned(DcGrid(n))[0] == n
    ensures forall k :: 1 <= k < 64 ==> Scanned(DcGrid(n))[k] == 0
  {
    hide Rank;
    forall k | 1 <= k < 64
      ensures Scanned(DcGrid(n))[k] == 0
    {
      Corners();
      assert Path(k) != Cell(0, 0);
    }
  }

  lemma BlackWithin()
    ensures GridWithin(FlatGrid(-128), -128, 127)
  {
  }

  /** What the quantiser alone decides: it keeps coefficient k of every block within half of
      itself, except that for the first coefficient it must not be one of the eight. */
  lemma WithinHalfOfEveryBlock(qt: seq<nat>, k: nat)
    requires |qt| == 64 && (forall i :: 0 <= i < 64 ==> qt[i] <= 255) && k < 64 && qt[k] != 0
    ensures (forall g: Grid :: GridWithin(g, -128, 127) ==> WithinHalf(g, qt, k)) <==> k > 0 || !Missed(qt[0])
  {
    hide WithinHalf, Forward, Scanned, Missed, FlatGrid, DcGrid;
    forall g: Grid | GridWithin(g, -128, 127)
      ensures WithinHalf(g, qt, k) <==> k > 0 || Scanned(Forward(g))[0] != -1024 || !Missed(qt[0])
    {
      CoefficientsWithinHalf(g, qt, k);
    }
    FlatForward(-128);
    FirstCell(-1024);
    BlackWithin();
  }

  // ---- how far a sample can be off

  /** How far a coefficient can be from what it was. A quantiser of zero takes all of it. */
  function Reach(q: nat): nat {
    if q == 0 then 1024 else q / 2 + if Missed(q) then 1 else 0
  }

  function LargestReach(qt: seq<nat>): (d: nat)
    ensures forall k :: 0 <= k < |qt| ==> Reach(qt[k]) <= d
  {
    if qt == [] then 0
    else
      var d, last := LargestReach(qt[..|qt| - 1]), Reach(qt[|qt| - 1]);
      if last > d then last else d
  }

  /** A reconstruction is a multiple of the quantiser, or at the end of the range. */
  lemma MultipleOrEnd(z: int, q: nat, entry: nat) returns (n: int)
    ensures Reconstructed(z, q, entry) == Clamp(n * q)
  {
    n := Quantised(z, Multiplier(entry), Shift(entry));
  }

  lemma WithinReach(z: int, q: nat)
    requires -1024 <= z <= 1023 && q <= 255
    ensures Abs(Reconstructed(z, q, QLook(q)) - z) <= Reach(q)
  {
    hide QLook, Reconstructed;
    if q == 0 {
      var n := MultipleOrEnd(z, q, QLook(q));
    } else {
      NearestMultiple(z, q);
      if z == -1024 && Missed(q) {
        MissedEntries();
        MissedValues();
      }
    }
  }

  lemma DecodedIs(deq: Block, zz: Block, qt: seq<nat>)
    requires |qt| == 64 && deq == Dequantised(zz, qt)
    ensures Decoded(zz, qt) == Inverse(Placed(deq))
  {
  }

  lemma CellNear(g: Grid, qt: seq<nat>, i: nat, j: nat)
    requires GridWithin(g, -128, 127) && |qt| == 64 && (forall k :: 0 <= k < 64 ==> qt[k] <= 255) && i < 8 && j < 8
    ensures Apart(Placed(Dequantised(Encoded(g, Reciprocals(qt)), qt))[i][j], Forward(g)[i][j], LargestReach(qt))
  {
    hide Forward, Quantised, Multiplier, Shift, QLook, Rank, Path, Reach;
    var k, f := Rank(Cell(i, j)), Forward(g);
    ForwardRange(g);
    ScannedWithin(f, -1024, 1023);
    PlacedScanned(f);
    assert Placed(Scanned(f))[i][j] == Scanned(f)[k];
    WithinReach(Scanned(f)[k], qt[k]);
  }

  lemma CellsNear(g: Grid, qt: seq<nat>)
    requires GridWithin(g, -128, 127) && |qt| == 64 && forall i :: 0 <= i < 64 ==> qt[i] <= 255
    ensures GridApart(Placed(Dequantised(Encoded(g, Reciprocals(qt)), qt)), Forward(g), LargestReach(qt))
  {
    hide Placed, Dequantised, Encoded, Forward, Reciprocals, Apart;
    forall i, j | 0 <= i < 8 && 0 <= j < 8
      ensures Apart(Placed(Dequantised(Encoded(g, Reciprocals(qt)), qt))[i][j], Forward(g)[i][j], LargestReach(qt))
    {
      CellNear(g, qt, i, j);
    }
  }

  /** Quantisers that move no coefficient by more than d move no sample by more than 16 + 8 d,
      rounding in both transforms included. */
  lemma SamplesNear(g: Grid, qt: seq<nat>, y: nat, x: nat)
    requires GridWithin(g, -128, 127) && |qt| == 64 && (forall i :: 0 <= i < 64 ==> qt[i] <= 255) && y < 8 && x < 8
    ensures Apart(Decoded(Encoded(g, Reciprocals(qt)), qt)[y][x], g[y][x] + 128, 16 + 8 * LargestReach(qt))
  {
    hide *;
    var zz := Dequantised(Encoded(g, Reciprocals(qt)), qt);
    CellsNear(g, qt);
    DecodedIs(zz, Encoded(g, Reciprocals(qt)), qt);
    InverseNear(g, Placed(zz), LargestReach(qt), y, x);
  }

  // ---- flat blocks

  lemma ZeroQuotient(d: nat)
    requires d > 0
    ensures 0 / d == 0
  {
  }

  lemma ZeroQuantised(qv: nat, sf: nat)
    requires sf >= 1
    ensures Quantised(0, qv, sf) == 0
  {
    hide Pow2;
    ZeroQuotient(Pow2(sf - 1));
  }

  lemma FlatCoefficients(g: Grid, n: int, qt: seq<nat>, r: int)
    requires |qt| == 64 && forall i :: 0 <= i < 64 ==> qt[i] <= 255
    requires Forward(g) == DcGrid(n) && r == Reconstructed(n, qt[0], QLook(qt[0]))
    ensures Dequantised(Encoded(g, Reciprocals(qt)), qt) == Scanned(DcGrid(r))
  {
    hide Forward, Quantised, Multiplier, Shift, Scanned, QLook, DcGrid;
    FirstCell(n);
    FirstCell(r);
    forall k | 1 <= k < 64
      ensures Dequantised(Encoded(g, Reciprocals(qt)), qt)[k] == 0
    {
      ZeroQuantised(Multiplier(Reciprocals(qt)[k]), Shift(Reciprocals(qt)[k]));
    }
  }

  /** What becomes of a flat block: a flat block, of the level of its reconstructed first
      coefficient. */
  lemma FlatBlock(a: int, qt: seq<nat>)
    requires -128 <= a <= 127 && |qt| == 64 && forall i :: 0 <= i < 64 ==> qt[i] <= 255
    ensures Decoded(Encoded(FlatGrid(a), Reciprocals(qt)), qt) ==
      FlatGrid(DcLevel(Reconstructed(8 * a, qt[0], QLook(qt[0]))))
  {
    hide Forward, Inverse, Quantised, Multiplier, Shift, Scanned, Placed, QLook, FlatGrid, DcGrid, DcLevel;
    var r := Reconstructed(8 * a, qt[0], QLook(qt[0]));
    FlatForward(a);
    FlatCoefficients(FlatGrid(a), 8 * a, qt, r);
    PlacedScanned(DcGrid(r));
    DcInverse(r);
  }

  /** The first quantisers that keep every flat block. */
  predicate KeepsFlat(q: nat) {
    1 <= q <= 5 || q == 7 || q == 8
  }

  lemma FlatGridIsOne(a: int, b: int)
    ensures FlatGrid(a) == FlatGrid(b) ==> a == b
  {
    assert FlatGrid(a)[0][0] == a && FlatGrid(b)[0][0] == b;
  }

  /** The dark samples for which quantiser 7 is off by three. */
  lemma DarkSevens()
    ensures DcLevel(-693) == 41 && DcLevel(-749) == 34 && DcLevel(-805) == 27 && DcLevel(-861) == 20
    ensures DcLevel(-917) == 13 && DcLevel(-973) == 6
  {
    hide DcLevel;
    LevelOf(-693, -980, -693);
    LevelOf(-749, -1059, -749);
    LevelOf(-805, -1138, -805);
    LevelOf(-861, -1218, -861);
    LevelOf(-917, -1297, -917);
    LevelOf(-973, -1376, -973);
  }

  lemma KeptLevel(a: int, q: nat)
    requires -128 <= a <= 127 && KeepsFlat(q)
    ensures DcLevel(Reconstructed(8 * a, q, QLook(q))) == a + 128
  {
    hide QLook, DcLevel, Reconstructed;
    var r := Reconstructed(8 * a, q, QLook(q));
    if q == 1 && a == -128 {
      MissedEntries();
      MissedValues();
    } else {
      NearestMultiple(8 * a, q);
      var n := MultipleOrEnd(8 * a, q, QLook(q));
      assert r == Clamp(n * q);
      assert q == 8 ==> r == 8 * n || r == -1023 || r == 1023;
      if q == 7 && a < -86 && r == 8 * a + 3 {
        DarkSevens();
        return;
      }
    }
    DcLevelExact(a, r);
  }

  lemma SmallMultiple(n: int, q: nat)
    requires q >= 17 && 2 * Abs(Clamp(n * q) - 8) <= q <= 255
    ensures Clamp(n * q) == 0
  {
    if n >= 1 {
      MulMonotonic(q, 1, n);
    } else if n <= -1 {
      MulMonotonic(q, n, -1);
    }
  }

  lemma SomeLevels()
    ensures DcLevel(-1020) == 1 && DcLevel(0) == 128 && DcLevel(11) == 129 && DcLevel(12) == 130
    ensures DcLevel(13) == 130 && DcLevel(14) == 130 && DcLevel(15) == 130 && DcLevel(16) == 130
    ensures DcLevel(20) == 131 && DcLevel(36) == 133
  {
    hide DcLevel;
    LevelOf(-1020, -1442, -1020);
    LevelOf(0, 0, 0);
    LevelOf(11, 16, 11);
    LevelOf(12, 17, 12);
    LevelOf(13, 18, 13);
    LevelOf(14, 20, 14);
    LevelOf(15, 21, 15);
    LevelOf(16, 23, 16);
    LevelOf(20, 28, 20);
    LevelOf(36, 51, 36);
  }

  /** For every other quantiser there is a flat block that comes back different. */
  lemma LostLevel(q: nat) returns (a: int)
    requires q <= 255 && !KeepsFlat(q)
    ensures -128 <= a <= 127 && DcLevel(Reconstructed(8 * a, q, QLook(q))) != a + 128
  {
    hide QLook, DcLevel, Reconstructed;
    SomeLevels();
    a := if q == 0 then 1 else if q == 6 then -128 else if q == 9 then 4 else if q <= 11 then 2 else 1;
    if q == 6 {
      MissedEntries();
      MissedValues();
    } else if q == 0 {
      var n := MultipleOrEnd(8, q, QLook(q));
    } else {
      NearestMultiple(8 * a, q);
      var n := MultipleOrEnd(8 * a, q, QLook(q));
      if q >= 17 {
        SmallMultiple(n, q);
      }
    }
  }

  /** Every flat block comes back exactly if and only if the first quantiser is one of these,
      whatever the other 63 are. */
  lemma FlatBlocksSurvive(qt: seq<nat>)
    requires |qt| == 64 && forall i :: 0 <= i < 64 ==> qt[i] <= 255
    ensures (forall a :: -128 <= a <= 127 ==> Decoded(Encoded(FlatGrid(a), Reciprocals(qt)), qt) == FlatGrid(a + 128))
      <==> KeepsFlat(qt[0])
  {
    hide Decoded, Encoded, Reciprocals, FlatGrid, DcLevel, Reconstructed, QLook, KeepsFlat;
    forall a | -128 <= a <= 127 && KeepsFlat(qt[0])
      ensures Decoded(Encoded(FlatGrid(a), Reciprocals(qt)), qt) == FlatGrid(a + 128)
    {
      FlatBlock(a, qt);
      KeptLevel(a, qt[0]);
    }
    if !KeepsFlat(qt[0]) {
      var a := LostLevel(qt[0]);
      FlatBlock(a, qt);
      FlatGridIsOne(DcLevel(Reconstructed(8 * a, qt[0], QLook(qt[0]))), a + 128);
    }
  }

  // ---- the steps as the programs take them

  lemma SmallProduct(z: int, qv: nat)
    requires -1024 <= z <= 1023 && qv < 2048
    ensures -0x20_0000 <= z * qv <= 0x20_0000
  {
    MulMonotonic(qv, z, 1023);
    MulMonotonic(qv, -1024, z);
  }

  /** The encoder's steps before entropy coding; afterwards no coefficient is out of range. */
  method EncodeBlock(block: array2<int>, zz: array<int>, qv: array2<nat>, sf: array2<nat>, qq: nat,
                     ghost entries: seq<nat>)
    requires block.Length0 == block.Length1 == 8 && zz.Length == 64 && qq < 4
    requires qv.Length0 == sf.Length0 == 4 && qv.Length1 == sf.Length1 == 64
    requires |entries| == 64 && forall k :: 0 <= k < 64 ==>
      qv[qq, k] == Multiplier(entries[k]) && sf[qq, k] == Shift(entries[k])
    requires GridWithin(Contents(block), -128, 127)
    modifies block, zz
    ensures zz[..] == Encoded(old(Contents(block)), entries) && InRange(zz[..])
  {
    hide Forward, Quantised, Multiplier, Shift, Scanned, Contents;
    ghost var g := Contents(block);
    EncodedInRange(g, entries);
    ForwardRange(g);
    Dct(block);
    ScannedWithin(Forward(g), -1024, 1023);
    Scan(block, zz);
    forall i | 0 <= i < 64
      ensures -0x8000_0000 <= zz[i] * qv[qq, i] < 0x7fff_ffff
    {
      assert zz[i] == zz[..][i];
      SmallProduct(zz[i], qv[qq, i]);
    }
    ghost var scanned := zz[..];
    assert scanned == Scanned(Forward(g));
    Quant(zz, qv, sf, qq);
    assert zz[..] == Encoded(g, entries);
  }

  /** The decoder's steps after entropy decoding: always bytes, with no overflow on the way. */
  method DecodeBlock(zz: array<int>, qt: array2<nat>, c: nat, block: array2<int>, ghost q: seq<nat>)
    requires block.Length0 == block.Length1 == 8 && zz.Length == 64 && c < qt.Length0 && qt.Length1 == 64
    requires |q| == 64 && forall k :: 0 <= k < 64 ==> qt[c, k] == q[k]
    requires forall k :: 0 <= k < 64 ==> -0x8000_0000 <= zz[k] * qt[c, k] < 0x8000_0000
    modifies zz, block
    ensures Contents(block) == Decoded(old(zz[..]), q) && GridWithin(Contents(block), 0, 255)
  {
    hide Inverse, Rank, Contents;
    ghost var coefficients: Block := zz[..];
    Dequant(zz, qt, c);
    assert zz[..] == Dequantised(coefficients, q);
    Place(zz, block);
    assert GridWithin(Contents(block), -1023, 1023);
    Idct(block);
  }
}
