/** From the bytes of a picture to the bytes of its reconstruction, through all programs. */
module PictureCodec {
  import opened Words
  import opened TableLoading
  import opened ScanCoding
  import opened EntropyDecoder
  import opened RoundTrip
  import opened Transform
  import opened TransformError
  import opened ZigZag
  import opened Quantiser
  import opened BlockCoding
  import opened CompleteTables

  // ---- quantisers

  /** 64 numbers of a byte. A table that the file does not define consists of zeros. */
  predicate IsQuantiserTable(qt: seq<nat>) {
    |qt| == 64 && forall k :: 0 <= k < 64 ==> qt[k] <= 255
  }

  /** The four quantiser tables of a file, and which of them each component uses. */
  datatype Quantisers = Quantisers(qt: seq<seq<nat>>, q: seq<nat>) {
    predicate Valid() {
      && |qt| == |q| == 4 && (forall i :: 0 <= i < 4 ==> IsQuantiserTable(qt[i]))
      && (forall j :: 0 <= j < 4 ==> q[j] < 4)
    }

    function Of(j: nat): (t: seq<nat>)
      requires Valid() && j < 4
      ensures IsQuantiserTable(t)
    {
      qt[q[j]]
    }

    /** What the generator writes for the decoder... */
    function DecoderFile(): (file: seq<nat>)
      requires Valid()
      ensures |file| == 256
    {
      seq(256, n requires 0 <= n < 256 => qt[n / 64][n % 64])
    }

    /** ... and for the encoder. */
    function EncoderFile(): (file: seq<nat>)
      requires Valid()
      ensures |file| == 256
    {
      seq(256, n requires 0 <= n < 256 => QLook(qt[n / 64][n % 64]))
    }
  }

  /** The arrays of both programs once they have read these files. */
  ghost predicate AreLoaded(qs: Quantisers, qv: array2<nat>, sf: array2<nat>, dq: array2<nat>)
    requires qs.Valid()
    reads qv, sf, dq
  {
    && qv.Length0 == sf.Length0 == dq.Length0 == 4 && qv.Length1 == sf.Length1 == dq.Length1 == 64
    && (forall i, k :: 0 <= i < 4 && 0 <= k < 64 ==> qv[i, k] == Multiplier(QLook(qs.qt[i][k])))
    && (forall i, k :: 0 <= i < 4 && 0 <= k < 64 ==> sf[i, k] == Shift(QLook(qs.qt[i][k])))
    && (forall i, k :: 0 <= i < 4 && 0 <= k < 64 ==> dq[i, k] == qs.qt[i][k])
  }

  method LoadAllQuantisers(qs: Quantisers) returns (qv: array2<nat>, sf: array2<nat>, dq: array2<nat>)
    requires qs.Valid()
    ensures fresh(qv) && fresh(sf) && fresh(dq) && AreLoaded(qs, qv, sf, dq)
  {
    hide QLook, Multiplier, Shift;
    qv, sf, dq := new nat[4, 64], new nat[4, 64], new nat[4, 64];
    var tables := LoadQuantisers(qs.EncoderFile(), qv, sf);
    LoadDequantisers(qs.DecoderFile(), dq);
    forall i, k | 0 <= i < 4 && 0 <= k < 64
      ensures NumberAt(qs.EncoderFile(), 64 * i + k) == QLook(qs.qt[i][k])
      ensures qs.DecoderFile()[64 * i + k] == qs.qt[i][k]
    {
      assert (64 * i + k) / 64 == i && (64 * i + k) % 64 == k;
    }
  }

  // ---- the encoder's side

  /** Samples around zero. */
  function Centred(g: Grid): Grid {
    seq(8, y requires 0 <= y < 8 => seq(8, x requires 0 <= x < 8 => g[y][x] - 128))
  }

  /** The encoder reads a block of bytes. */
  method ReadBlock(samples: Grid, block: array2<int>)
    requires block.Length0 == block.Length1 == 8
    modifies block
    ensures Contents(block) == Centred(samples)
  {
    for i := 0 to 8
      invariant forall y, x :: 0 <= y < i && 0 <= x < 8 ==> block[y, x] == samples[y][x] - 128
    {
      for j := 0 to 8
        invariant forall y, x :: 0 <= y < i && 0 <= x < 8 ==> block[y, x] == samples[y][x] - 128
        invariant forall x :: 0 <= x < j ==> block[i, x] == samples[i][x] - 128
      {
        block[i, j] := samples[i][j] - 128;
      }
    }
    SameGrid(Contents(block), Centred(samples));
  }

  function EncodedBlocks(blocks: seq<Grid>, qt: seq<nat>): (res: seq<Block>)
    requires IsQuantiserTable(qt)
    ensures |res| == |blocks|
  {
    seq(|blocks|, k requires 0 <= k < |blocks| => Encoded(Centred(blocks[k]), Reciprocals(qt)))
  }

  ghost predicate AreBytes(blocks: seq<Grid>) {
    forall k :: 0 <= k < |blocks| ==> GridWithin(blocks[k], 0, 255)
  }

  lemma CentredWithin(g: Grid)
    requires GridWithin(g, 0, 255)
    ensures GridWithin(Centred(g), -128, 127)
  {
    forall y | 0 <= y < 8
      ensures Within(Centred(g)[y], -128, 127)
    {
      assert Within(g[y], 0, 255);
    }
  }

  /** The blocks of one component of an MCU, up to the entropy coder. */
  method QuantiseBlocks(blocks: seq<Grid>, j: nat, qs: Quantisers, qv: array2<nat>, sf: array2<nat>,
                        ghost dq: array2<nat>)
    returns (res: seq<Block>)
    requires qs.Valid() && j < 4 && AreLoaded(qs, qv, sf, dq) && AreBytes(blocks)
    ensures res == EncodedBlocks(blocks, qs.Of(j))
  {
    hide Encoded, Multiplier, Shift, QLook, Contents;
    var block, zz := new int[8, 8], new int[64];
    res := [];
    for k := 0 to |blocks|
      invariant |res| == k && forall i :: 0 <= i < k ==> res[i] == Encoded(Centred(blocks[i]), Reciprocals(qs.Of(j)))
      invariant AreLoaded(qs, qv, sf, dq)
    {
      ReadBlock(blocks[k], block);
      CentredWithin(blocks[k]);
      EncodeBlock(block, zz, qv, sf, qs.q[j], Reciprocals(qs.Of(j)));
      res := res + [zz[..]];
    }
  }

  ghost predicate IsPictureMcu(mcu: seq<seq<Grid>>, nc: seq<nat>) {
    && |mcu| == |nc| && (forall j :: 0 <= j < |nc| ==> |mcu[j]| == nc[j])
    && (forall j :: 0 <= j < |nc| ==> AreBytes(mcu[j]))
  }

  /** Blocks of bytes listed like the blocks of a scan: nc[j] of component j in every MCU. */
  ghost predicate IsPicture(samples: seq<seq<seq<Grid>>>, nc: seq<nat>) {
    && |nc| <= 4 && forall i :: 0 <= i < |samples| ==> IsPictureMcu(samples[i], nc)
  }

  function EncodedMcu(mcu: seq<seq<Grid>>, qs: Quantisers): (m: Mcu)
    requires qs.Valid() && |mcu| <= 4
    ensures |m| == |mcu|
  {
    seq(|mcu|, j requires 0 <= j < |mcu| => EncodedBlocks(mcu[j], qs.Of(j)))
  }

  /** The quantised scan of a picture. */
  function EncodedPicture(samples: seq<seq<seq<Grid>>>, qs: Quantisers): (mcus: seq<Mcu>)
    requires qs.Valid() && forall i :: 0 <= i < |samples| ==> |samples[i]| <= 4
    ensures |mcus| == |samples|
  {
    seq(|samples|, i requires 0 <= i < |samples| => EncodedMcu(samples[i], qs))
  }

  method QuantisePicture(samples: seq<seq<seq<Grid>>>, nc: seq<nat>, qs: Quantisers,
                         qv: array2<nat>, sf: array2<nat>, ghost dq: array2<nat>)
    returns (mcus: seq<Mcu>)
    requires qs.Valid() && IsPicture(samples, nc) && AreLoaded(qs, qv, sf, dq)
    ensures mcus == EncodedPicture(samples, qs)
  {
    hide EncodedBlocks, AreBytes, AreLoaded, Quantisers.Valid;
    mcus := [];
    for i := 0 to |samples|
      invariant |mcus| == i && forall a :: 0 <= a < i ==> mcus[a] == EncodedMcu(samples[a], qs)
    {
      assert IsPictureMcu(samples[i], nc);
      var mcu := [];
      for j := 0 to |nc|
        invariant |mcu| == j && forall a :: 0 <= a < j ==> mcu[a] == EncodedBlocks(samples[i][a], qs.Of(a))
      {
        var blocks := QuantiseBlocks(samples[i][j], j, qs, qv, sf, dq);
        mcu := mcu + [blocks];
      }
      mcus := mcus + [mcu];
    }
  }

  lemma McuOfPictureInRange(mcu: seq<seq<Grid>>, nc: seq<nat>, qs: Quantisers)
    requires qs.Valid() && |nc| <= 4 && IsPictureMcu(mcu, nc)
    ensures McuInRange(EncodedMcu(mcu, qs)) && Decoder.HasShape(EncodedMcu(mcu, qs), nc)
  {
    hide Encoded, InRange, GridWithin, Quantisers.Valid;
    forall j, k | 0 <= j < |mcu| && 0 <= k < |mcu[j]|
      ensures InRange(EncodedMcu(mcu, qs)[j][k])
    {
      CentredWithin(mcu[j][k]);
      EncodedInRange(Centred(mcu[j][k]), Reciprocals(qs.Of(j)));
    }
  }

  /** Quantised, every picture is a scan the codec accepts. */
  lemma PictureInRange(samples: seq<seq<seq<Grid>>>, nc: seq<nat>, qs: Quantisers)
    requires qs.Valid() && IsPicture(samples, nc)
    ensures var mcus := EncodedPicture(samples, qs);
      && ValidMcus(mcus) && McusInRange(mcus) && Components(mcus, |nc|)
      && forall i :: 0 <= i < |mcus| ==> Decoder.HasShape(mcus[i], nc)
  {
    hide McuInRange, Decoder.HasShape, EncodedMcu, Quantisers.Valid;
    forall i | 0 <= i < |samples|
      ensures McuInRange(EncodedMcu(samples[i], qs)) && Decoder.HasShape(EncodedMcu(samples[i], qs), nc)
    {
      assert IsPictureMcu(samples[i], nc);
      McuOfPictureInRange(samples[i], nc, qs);
    }
  }

  // ---- the decoder's side

  function DecodedBlocks(blocks: seq<Block>, qt: seq<nat>): (res: seq<Grid>)
    requires |qt| == 64
    ensures |res| == |blocks|
  {
    seq(|blocks|, k requires 0 <= k < |blocks| => Decoded(blocks[k], qt))
  }

  lemma SmallDequantised(z: int, q: nat)
    requires -1024 <= z <= 1023 && q <= 255
    ensures -0x8000_0000 <= z * q < 0x8000_0000
  {
    MulMonotonic(q, z, 1023);
    MulMonotonic(q, -1024, z);
  }

  /** The blocks of one component of an MCU, from the entropy decoder on. */
  method RestoreBlocks(blocks: seq<Block>, j: nat, ghost qs: Quantisers, q: seq<nat>, ghost qv: array2<nat>,
                       ghost sf: array2<nat>, dq: array2<nat>)
    returns (res: seq<Grid>)
    requires qs.Valid() && q == qs.q && j < 4 && AreLoaded(qs, qv, sf, dq) && forall k :: 0 <= k < |blocks| ==>
      InRange(blocks[k])
    ensures res == DecodedBlocks(blocks, qs.Of(j)) && AreBytes(res)
  {
    hide Decoded, Contents, Multiplier, Shift, QLook, GridWithin;
    var block, zz := new int[8, 8], new int[64];
    res := [];
    for k := 0 to |blocks|
      invariant |res| == k && forall i :: 0 <= i < k ==> res[i] == Decoded(blocks[i], qs.Of(j))
      invariant AreBytes(res) && AreLoaded(qs, qv, sf, dq)
    {
      for n := 0 to 64
        invariant forall i :: 0 <= i < n ==> zz[i] == blocks[k][i]
      {
        zz[n] := blocks[k][n];
      }
      assert zz[..] == blocks[k];
      forall n | 0 <= n < 64
        ensures -0x8000_0000 <= zz[n] * dq[q[j], n] < 0x8000_0000
      {
        assert InRange(blocks[k]);
        SmallDequantised(zz[n], dq[q[j], n]);
      }
      DecodeBlock(zz, dq, q[j], block, qs.Of(j));
      res := res + [Contents(block)];
    }
  }

  // ---- the whole way

  /** Coefficient n of a block comes back within half its quantiser, unless it is the first, that is
      -1024, and its quantiser is one of those that miss that. A quantiser of zero, which T.81 does
      not allow and the programs do not refuse, leaves zero. */
  ghost predicate CoefficientKept(g: Grid, qt: seq<nat>, n: nat)
    requires IsQuantiserTable(qt) && n < 64
  {
    if qt[n] == 0 then Dequantised(Encoded(g, Reciprocals(qt)), qt)[n] == 0
    else WithinHalf(g, qt, n) <==> n > 0 || Scanned(Forward(g))[0] != -1024 || !Missed(qt[0])
  }

  /** What the reconstruction of a block has to do with it: it is made of bytes, by the inverse
      transform, from coefficients that are as near to the block's own as the quantisers allow,
      and its samples are within a bound that the quantisers give. */
  ghost predicate IsReconstruction(restored: Grid, original: Grid, qt: seq<nat>)
    requires IsQuantiserTable(qt)
  {
    && GridWithin(restored, 0, 255)
    && restored == Decoded(Encoded(Centred(original), Reciprocals(qt)), qt)
    && (forall n :: 0 <= n < 64 ==> CoefficientKept(Centred(original), qt, n))
    && GridApart(restored, original, 16 + 8 * LargestReach(qt))
  }

  lemma CentredAt(g: Grid, y: nat, x: nat)
    requires y < 8 && x < 8
    ensures Centred(g)[y][x] + 128 == g[y][x]
  {
  }

  lemma SamplesKept(restored: Grid, original: Grid, qt: seq<nat>)
    requires IsQuantiserTable(qt) && GridWithin(original, 0, 255)
    requires restored == Decoded(Encoded(Centred(original), Reciprocals(qt)), qt)
    ensures GridApart(restored, original, 16 + 8 * LargestReach(qt))
  {
    hide Decoded, Encoded, LargestReach, Apart, Centred;
    CentredWithin(original);
    forall y, x | 0 <= y < 8 && 0 <= x < 8
      ensures Apart(restored[y][x], original[y][x], 16 + 8 * LargestReach(qt))
    {
      SamplesNear(Centred(original), qt, y, x);
      CentredAt(original, y, x);
    }
  }

  lemma Reconstructs(restored: Grid, original: Grid, qt: seq<nat>)
    requires IsQuantiserTable(qt) && GridWithin(original, 0, 255) && GridWithin(restored, 0, 255)
    requires restored == Decoded(Encoded(Centred(original), Reciprocals(qt)), qt)
    ensures IsReconstruction(restored, original, qt)
  {
    hide Decoded, Encoded, WithinHalf, Scanned, Forward, Missed, LargestReach, GridApart;
    CentredWithin(original);
    SamplesKept(restored, original, qt);
    forall n | 0 <= n < 64
      ensures CoefficientKept(Centred(original), qt, n)
    {
      if qt[n] == 0 {
        assert Dequantised(Encoded(Centred(original), Reciprocals(qt)), qt)[n] == 0;
      } else {
        CoefficientsWithinHalf(Centred(original), qt, n);
      }
    }
  }

  ghost predicate BlocksReconstructed(restored: seq<Grid>, original: seq<Grid>, qt: seq<nat>)
    requires IsQuantiserTable(qt)
  {
    && |restored| == |original|
    && forall k :: 0 <= k < |original| ==> IsReconstruction(restored[k], original[k], qt)
  }

  ghost predicate McuReconstructed(restored: seq<seq<Grid>>, original: seq<seq<Grid>>, qs: Quantisers)
    requires qs.Valid() && |original| <= 4
  {
    && |restored| == |original|
    && forall j :: 0 <= j < |original| ==> BlocksReconstructed(restored[j], original[j], qs.Of(j))
  }

  lemma BlocksAreReconstructed(restored: seq<Grid>, original: seq<Grid>, qt: seq<nat>)
    requires IsQuantiserTable(qt) && AreBytes(original) && AreBytes(restored)
    requires restored == DecodedBlocks(EncodedBlocks(original, qt), qt)
    ensures BlocksReconstructed(restored, original, qt)
  {
    hide IsReconstruction, GridWithin, Decoded, Encoded;
    forall k | 0 <= k < |original|
      ensures IsReconstruction(restored[k], original[k], qt)
    {
      Reconstructs(restored[k], original[k], qt);
    }
  }

  method RestorePicture(mcus: seq<Mcu>, ghost samples: seq<seq<seq<Grid>>>, nc: seq<nat>,
                        ghost qs: Quantisers, q: seq<nat>,
                        ghost qv: array2<nat>, ghost sf: array2<nat>, dq: array2<nat>)
    returns (restored: seq<seq<seq<Grid>>>)
    requires qs.Valid() && q == qs.q && IsPicture(samples, nc) && AreLoaded(qs, qv, sf, dq)
    requires mcus == EncodedPicture(samples, qs) && McusInRange(mcus)
    ensures |restored| == |samples| && forall i :: 0 <= i < |samples| ==> McuReconstructed(restored[i], samples[i], qs)
  {
    hide EncodedBlocks, DecodedBlocks, AreBytes, AreLoaded, InRange, BlocksReconstructed, Quantisers.Valid;
    restored := [];
    for i := 0 to |mcus|
      invariant |restored| == i && forall a :: 0 <= a < i ==> McuReconstructed(restored[a], samples[a], qs)
    {
      assert IsPictureMcu(samples[i], nc) && McuInRange(mcus[i]);
      var mcu := [];
      for j := 0 to |mcus[i]|
        invariant |mcu| == j && forall a :: 0 <= a < j ==> BlocksReconstructed(mcu[a], samples[i][a], qs.Of(a))
      {
        var blocks := RestoreBlocks(mcus[i][j], j, qs, q, qv, sf, dq);
        BlocksAreReconstructed(blocks, samples[i][j], qs.Of(j));
        mcu := mcu + [blocks];
      }
      restored := restored + [mcu];
    }
  }

  /** Every picture of bytes, with any quantisers, comes through, if the file defines complete
      code tables for the components that the scan has: no error exit is taken, and what comes
      back is a picture of bytes whose coefficients are as near to the original ones as the
      quantisers allow, and no sample is further than 16 + 8 d from its original where no
      quantiser of its component moves a coefficient by more than d. */
  method CompressAndRestore(defs: seq<TableDef>, hd: seq<nat>, ha: seq<nat>, qs: Quantisers,
                            samples: seq<seq<seq<Grid>>>, nc: seq<nat>, restart: bool, nrst: nat)
    returns (ok: bool, restored: seq<seq<seq<Grid>>>)
    requires ValidDefs(defs) && NothingDropped(defs) && ValidSelectors(hd) && ValidSelectors(ha)
    requires qs.Valid() && IsPicture(samples, nc)
    requires DefinesAll(defs, hd, ha, |nc|) && InRegisters(|samples|, restart, nrst)
    ensures ok && |restored| == |samples|
    ensures forall i :: 0 <= i < |samples| ==> McuReconstructed(restored[i], samples[i], qs)
  {
    hide ValidDefs, NothingDropped, DefinesAll, Complete, ScanUses, McusInRange, EncodedMcu, AreLoaded,
      McuReconstructed,
      Quantisers.Valid;
    var qv, sf, dq := LoadAllQuantisers(qs);
    var mcus := QuantisePicture(samples, nc, qs, qv, sf, dq);
    PictureInRange(samples, nc, qs);
    CompleteDefinitions(defs, hd, ha, |nc|);
    ScanUsesLegal(mcus, 0, restart, nrst, AlphabetOf(hd, ha, DcDefinitions(defs), AcDefinitions(defs)), |nc|);
    var encoded, copied, decoded, warned, exited := CodecRoundTrip(defs, hd, ha, mcus, nc, restart, nrst, [], []);
    ok := encoded && copied && !warned && !exited;
    restored := RestorePicture(decoded, samples, nc, qs, qs.q, qv, sf, dq);
  }
}
