/** Where the parts of a scan are: which MCUs an interval has, which marker follows it, and what a
    block is predicted from, all told by numbers. */
module ScanLayout {
  import opened Words
  import opened CodecTables
  import opened Framing
  import opened ScanCoding

  // ---- intervals

  /** With restarts, n MCUs are cut into as many intervals of nrst + 1 as it takes. */
  function IntervalCount(n: nat, restart: bool, nrst: nat): (count: nat) {
    if n == 0 || !restart then 1 else (n + nrst) / (nrst + 1)
  }

  /** The MCUs of interval k, for intervals of the given size. */
  function Interval(mcus: seq<Mcu>, k: nat, size: nat): (part: seq<Mcu>)
    requires k * size <= |mcus|
  {
    mcus[k * size..if (k + 1) * size < |mcus| then (k + 1) * size else |mcus|]
  }

  lemma CountBound(n: nat, size: nat, k: nat)
    requires size > 0
    ensures k < (n + size - 1) / size <==> k * size < n
  {
    QuotientBound(n + size - 1, size, k + 1);
    assert (k + 1) * size == k * size + size;
  }

  lemma FirstOfMany(mcus: seq<Mcu>, start: nat, nrst: nat, l: Layout)
    requires ValidMcus(mcus) && l.Valid() && start < |mcus|
    ensures |Segments(mcus, start, true, nrst, l)| ==
      if start + nrst + 1 < |mcus| then 1 + |Segments(mcus, start + nrst + 1, true, nrst, l)| else 1
  {
    hide McusBits;
  }

  lemma CountIs(n: nat, size: nat, a: nat)
    requires size > 0 && a * size < n <= (a + 1) * size
    ensures (n + size - 1) / size == a + 1
  {
    CountBound(n, size, a);
    CountBound(n, size, a + 1);
  }

  /** From interval a on there are so many segments... */
  lemma {:induction false} SegmentCount(mcus: seq<Mcu>, a: nat, nrst: nat, l: Layout, start: nat)
    requires ValidMcus(mcus) && l.Valid() && start == a * (nrst + 1) < |mcus|
    ensures |Segments(mcus, start, true, nrst, l)| == (|mcus| + nrst) / (nrst + 1) - a
    decreases |mcus| - start
  {
    hide *;
    var next := start + nrst + 1;
    assert next == (a + 1) * (nrst + 1);
    FirstOfMany(mcus, start, nrst, l);
    if next < |mcus| {
      SegmentCount(mcus, a + 1, nrst, l, next);
    } else {
      CountIs(|mcus|, nrst + 1, a);
    }
  }

  lemma FirstInterval(mcus: seq<Mcu>, a: nat, nrst: nat, l: Layout, start: nat)
    requires ValidMcus(mcus) && l.Valid() && start == a * (nrst + 1) < |mcus|
    ensures |Segments(mcus, start, true, nrst, l)| > 0
    ensures Segments(mcus, start, true, nrst, l)[0] == McusBits(Interval(mcus, a, nrst + 1), ZEROS, l)
  {
    hide McusBits;
    assert (a + 1) * (nrst + 1) == start + (nrst + 1);
  }

  lemma FirstIsGone(mcus: seq<Mcu>, start: nat, next: nat, nrst: nat, l: Layout, i: nat)
    requires ValidMcus(mcus) && l.Valid() && next == start + nrst + 1 < |mcus|
    requires 0 < i <= |Segments(mcus, next, true, nrst, l)|
    ensures |Segments(mcus, start, true, nrst, l)| == 1 + |Segments(mcus, next, true, nrst, l)|
    ensures Segments(mcus, start, true, nrst, l)[i] == Segments(mcus, next, true, nrst, l)[i - 1]
  {
    hide McusBits;
  }

  /** Segment i of those from a start on is the bits of interval k. */
  ghost predicate SegmentIs(mcus: seq<Mcu>, start: nat, i: nat, k: nat, nrst: nat, l: Layout)
    requires ValidMcus(mcus) && l.Valid() && start < |mcus|
  {
    && i < |Segments(mcus, start, true, nrst, l)| && k * (nrst + 1) < |mcus|
    && Segments(mcus, start, true, nrst, l)[i] == McusBits(Interval(mcus, k, nrst + 1), ZEROS, l)
  }

  /** ... and each is the bits of its own MCUs. */
  lemma {:induction false} SegmentNumber(mcus: seq<Mcu>, a: nat, k: nat, nrst: nat, l: Layout, start: nat)
    requires ValidMcus(mcus) && l.Valid() && a <= k && k * (nrst + 1) < |mcus| && start == a * (nrst + 1) < |mcus|
    ensures SegmentIs(mcus, start, k - a, k, nrst, l)
    decreases k - a
  {
    hide McusBits, Segments, Interval;
    var size := nrst + 1;
    var next := (a + 1) * size;
    assert next == start + size;
    if a == k {
      FirstInterval(mcus, a, nrst, l, start);
    } else {
      MulMonotonic(size, a + 1, k);
      SegmentNumber(mcus, a + 1, k, nrst, l, next);
      FirstIsGone(mcus, start, next, nrst, l, k - a);
    }
  }

  /** The segments of a scan, by number. */
  function IntervalBits(mcus: seq<Mcu>, restart: bool, nrst: nat, l: Layout): (segs: seq<seq<bool>>)
    requires ValidMcus(mcus) && l.Valid()
    ensures |segs| == IntervalCount(|mcus|, restart, nrst)
  {
    if |mcus| == 0 || !restart then [McusBits(mcus, ZEROS, l)]
    else
      seq((|mcus| + nrst) / (nrst + 1), k requires 0 <= k < (|mcus| + nrst) / (nrst + 1) =>
        (CountBound(|mcus|, nrst + 1, k); McusBits(Interval(mcus, k, nrst + 1), ZEROS, l)))
  }

  lemma SegmentsAreIntervals(mcus: seq<Mcu>, restart: bool, nrst: nat, l: Layout)
    requires ValidMcus(mcus) && l.Valid()
    ensures Segments(mcus, 0, restart, nrst, l) == IntervalBits(mcus, restart, nrst, l)
  {
    hide McusBits;
    if |mcus| == 0 || !restart {
      assert mcus[0..|mcus|] == mcus;
    } else {
      SegmentCount(mcus, 0, nrst, l, 0);
      forall k | 0 <= k < |IntervalBits(mcus, restart, nrst, l)|
        ensures Segments(mcus, 0, restart, nrst, l)[k] == IntervalBits(mcus, restart, nrst, l)[k]
      {
        CountBound(|mcus|, nrst + 1, k);
        SegmentNumber(mcus, 0, k, nrst, l, 0);
        assert SegmentIs(mcus, 0, k, k, nrst, l);
      }
    }
  }

  // ---- markers

  /** Where segment k starts in a scan. */
  function Offset(segs: seq<seq<bool>>, k: nat): nat
    requires k <= |segs|
  {
    if k == 0 then 0 else Offset(segs, k - 1) + |Close(segs[k - 1])| + 2
  }

  lemma {:induction false} OffsetFromFront(segs: seq<seq<bool>>, k: nat)
    requires k < |segs|
    ensures Offset(segs, k + 1) == |Close(segs[0])| + 2 + Offset(segs[1..], k)
  {
    hide Close;
    if k == 0 {
      assert Offset(segs, 1) == Offset(segs, 0) + |Close(segs[0])| + 2;
    } else {
      OffsetFromFront(segs, k - 1);
      assert segs[1..][k - 1] == segs[k];
    }
  }

  /** The marker after segment k of n: restart markers are numbered from r on, modulo 8, and the last
      segment is followed by EOI. */
  function Marker(k: nat, n: nat, r: nat): (m: byte)
    requires k < n
  {
    if k == n - 1 then 217 else 208 + (r + k) % 8
  }

  /** Segment k, stuffed and padded, and the marker after it. */
  ghost predicate SegmentAt(out: seq<byte>, segs: seq<seq<bool>>, k: nat, r: nat)
    requires k < |segs|
  {
    && Offset(segs, k) <= Offset(segs, k + 1) <= |out|
    && out[Offset(segs, k)..Offset(segs, k + 1)] ==
         Close(segs[k]) + [255, Marker(k, |segs|, r)]
  }

  lemma SliceAfter(a: seq<byte>, b: seq<byte>, lo: nat, hi: nat)
    requires lo <= hi <= |b|
    ensures (a + b)[|a| + lo..|a| + hi] == b[lo..hi]
  {
  }

  lemma FrameOfMore(segs: seq<seq<bool>>, r: nat)
    requires |segs| > 1 && r < 8
    ensures Frame(segs, r) == Close(segs[0]) + [255, 208 + r] + Frame(segs[1..], (r + 1) % 8)
  {
    hide Close;
  }

  lemma {:induction false} FrameLength(segs: seq<seq<bool>>, r: nat)
    requires segs != [] && r < 8
    ensures |Frame(segs, r)| == Offset(segs, |segs|)
  {
    if |segs| == 1 {
      hide Close;
      assert Offset(segs, 1) == Offset(segs, 0) + |Close(segs[0])| + 2;
    } else {
      FrameOfMore(segs, r);
      FrameLength(segs[1..], (r + 1) % 8);
      OffsetFromFront(segs, |segs| - 1);
    }
  }

  lemma OnlySegment(segs: seq<seq<bool>>, r: nat)
    requires |segs| == 1 && r < 8
    ensures SegmentAt(Frame(segs, r), segs, 0, r)
  {
    hide Close;
    assert Offset(segs, 1) == Offset(segs, 0) + |Close(segs[0])| + 2;
  }

  lemma FirstSegment(segs: seq<seq<bool>>, r: nat)
    requires |segs| > 1 && r < 8
    ensures SegmentAt(Frame(segs, r), segs, 0, r)
  {
    FrameOfMore(segs, r);
    hide Close, Frame;
    assert Offset(segs, 1) == Offset(segs, 0) + |Close(segs[0])| + 2;
  }

  lemma SameRest(r: nat, k: nat)
    requires k > 0
    ensures ((r + 1) % 8 + (k - 1)) % 8 == (r + k) % 8
  {
    assert (r + 1) % 8 + (k - 1) == r + k - 8 * ((r + 1) / 8);
  }

  lemma SameMarker(k: nat, n: nat, r: nat)
    requires 0 < k < n
    ensures Marker(k - 1, n - 1, (r + 1) % 8) == Marker(k, n, r)
  {
    SameRest(r, k);
  }

  lemma LaterSegment(segs: seq<seq<bool>>, r: nat, r': nat, k: nat, out: seq<byte>, more: seq<byte>)
    requires 0 < k < |segs| && r < 8 && out == Close(segs[0]) + [255, 208 + r] + more
    requires SegmentAt(more, segs[1..], k - 1, r') && Marker(k - 1, |segs| - 1, r') == Marker(k, |segs|, r)
    ensures SegmentAt(out, segs, k, r)
  {
    hide Close, Marker;
    OffsetFromFront(segs, k - 1);
    OffsetFromFront(segs, k);
    hide Offset;
    SliceAfter(Close(segs[0]) + [255, 208 + r], more, Offset(segs[1..], k - 1), Offset(segs[1..], k));
  }

  lemma {:induction false} FrameAt(segs: seq<seq<bool>>, r: nat, k: nat)
    requires k < |segs| && r < 8
    ensures SegmentAt(Frame(segs, r), segs, k, r)
  {
    hide Close, SegmentAt, Frame, Marker;
    if |segs| == 1 {
      OnlySegment(segs, r);
    } else if k == 0 {
      FirstSegment(segs, r);
    } else {
      FrameAt(segs[1..], (r + 1) % 8, k - 1);
      FrameOfMore(segs, r);
      SameMarker(k, |segs|, r);
      LaterSegment(segs, r, (r + 1) % 8, k, Frame(segs, r), Frame(segs[1..], (r + 1) % 8));
    }
  }

  /** The whole scan: interval after interval, each closed and followed by its marker, and no
      other byte. */
  ghost predicate IsScan(out: seq<byte>, mcus: seq<Mcu>, restart: bool, nrst: nat, l: Layout)
    requires ValidMcus(mcus) && l.Valid()
  {
    var segs := IntervalBits(mcus, restart, nrst, l);
    |out| == Offset(segs, |segs|) && forall k :: 0 <= k < |segs| ==> SegmentAt(out, segs, k, 0)
  }

  lemma ScanBytesAreScan(mcus: seq<Mcu>, restart: bool, nrst: nat, l: Layout)
    requires ValidMcus(mcus) && l.Valid()
    ensures IsScan(ScanBytes(mcus, restart, nrst, l), mcus, restart, nrst, l)
  {
    hide Close, Frame, Segments, IntervalBits, Offset, SegmentAt;
    SegmentsAreIntervals(mcus, restart, nrst, l);
    var segs := IntervalBits(mcus, restart, nrst, l);
    FrameLength(segs, 0);
    forall k | 0 <= k < |segs|
      ensures SegmentAt(ScanBytes(mcus, restart, nrst, l), segs, k, 0)
    {
      FrameAt(segs, 0, k);
    }
  }

  // ---- prediction

  /** What the next block of component j is predicted from after the first i MCUs of an interval:
      the last block of the component so far, or zero. */
  function PredictorAfter(mcus: seq<Mcu>, i: nat, j: nat): int
    requires i <= |mcus|
  {
    if i == 0 then 0
    else if j < |mcus[i - 1]| && mcus[i - 1][j] != [] then mcus[i - 1][j][|mcus[i - 1][j]| - 1][0]
    else PredictorAfter(mcus, i - 1, j)
  }

  function PredictorsAfter(mcus: seq<Mcu>, i: nat): Predictors
    requires i <= |mcus|
  {
    seq(4, j requires 0 <= j < 4 => PredictorAfter(mcus, i, j))
  }

  lemma StepPredictors(mcus: seq<Mcu>, i: nat)
    requires i < |mcus| && |mcus[i]| <= 4
    ensures NextPredictors(mcus[i], PredictorsAfter(mcus, i)) == PredictorsAfter(mcus, i + 1)
  {
  }

  lemma {:induction false} BitsFrom(mcus: seq<Mcu>, i: nat, k: nat, l: Layout)
    requires ValidMcus(mcus) && l.Valid() && i <= k < |mcus|
    ensures McusBits(mcus[i..k + 1], PredictorsAfter(mcus, i), l) ==
      McusBits(mcus[i..k], PredictorsAfter(mcus, i), l) + McuBits(mcus[k], 0, PredictorsAfter(mcus, k), l)
    decreases k - i
  {
    hide McuBits, NextPredictors, PredictorsAfter;
    McusBitsStep(mcus, i, k + 1, PredictorsAfter(mcus, i), l);
    StepPredictors(mcus, i);
    if i == k {
      NoMcusNoBits(mcus, k + 1, PredictorsAfter(mcus, k + 1), l);
      NoMcusNoBits(mcus, k, PredictorsAfter(mcus, k), l);
    } else {
      McusBitsStep(mcus, i, k, PredictorsAfter(mcus, i), l);
      BitsFrom(mcus, i + 1, k, l);
    }
  }

  /** The bits of an interval end with those of its last MCU, coded against the last block of each
      component before it. */
  lemma LastMcu(mcus: seq<Mcu>, k: nat, l: Layout)
    requires ValidMcus(mcus) && l.Valid() && k < |mcus|
    ensures McusBits(mcus[..k + 1], ZEROS, l) ==
      McusBits(mcus[..k], ZEROS, l) + McuBits(mcus[k], 0, PredictorsAfter(mcus, k), l)
  {
    assert PredictorsAfter(mcus, 0) == ZEROS;
    BitsFrom(mcus, 0, k, l);
    assert mcus[0..k + 1] == mcus[..k + 1] && mcus[0..k] == mcus[..k];
  }

  /** The bits of a component end with those of its last block, coded against the one before. */
  lemma {:induction false} LastBlock(blocks: seq<Block>, pred: int, dc: CodeTable, ac: CodeTable)
    requires blocks != []
    ensures var k := |blocks| - 1;
      BlocksBits(blocks, pred, dc, ac) ==
        BlocksBits(blocks[..k], pred, dc, ac) + BlockBits(blocks[k], if k == 0 then pred else blocks[k - 1][0], dc, ac)
  {
    hide BlockBits;
    var k := |blocks| - 1;
    if k == 0 {
    } else {
      LastBlock(blocks[1..], blocks[0][0], dc, ac);
      assert blocks[1..][..k - 1] == blocks[..k][1..];
    }
  }
}
