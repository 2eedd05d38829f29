/** tabgen's SOS case copies the entropy-coded data of a file, up to the first marker that is
    not a restart marker. */
module ScanCopy {
  import opened Words
  import opened Framing

  datatype Copy =
    | ToEndOfImage(out: seq<byte>, next: nat) // EOI was found and is copied too
    | ToMarker(out: seq<byte>, next: nat)     // another marker, or none after a last FF
    | Endless(out: seq<byte>)                 // the file ends: the loop never does

  predicate Continues(c: byte) {
    c == 0 || RST0 <= c <= RST0 + 7
  }

  /** The codes after an FF that the copy goes on over: zero and D0 to D7. */
  lemma ContinuesOver(c: byte)
    ensures Continues(c) <==> c == 0 || c in {208, 209, 210, 211, 212, 213, 214, 215}
  {
  }

  /** What is copied from a position on, prefixed by what has been copied so far. */
  function CopyFrom(inp: seq<byte>, pos: nat, out: seq<byte>): Copy
    requires pos <= |inp|
    decreases |inp| - pos
  {
    if pos == |inp| then Endless(out)
    else if inp[pos] != 255 then CopyFrom(inp, pos + 1, out + [inp[pos]])
    else if pos + 1 == |inp| then ToMarker(out, pos + 1)
    else if Continues(inp[pos + 1]) then CopyFrom(inp, pos + 2, out + [255, inp[pos + 1]])
    else if inp[pos + 1] == EOI then ToEndOfImage(out + [255, EOI], pos + 2)
    else ToMarker(out, pos + 2)
  }

  method CopyScan(inp: seq<byte>, start: nat) returns (r: Copy)
    requires start <= |inp|
    ensures r == CopyFrom(inp, start, [])
  {
    var out, pos := [], start;
    while pos < |inp|
      invariant pos <= |inp| && CopyFrom(inp, start, []) == CopyFrom(inp, pos, out)
    {
      var c := inp[pos];
      pos := pos + 1;
      if c == 255 {
        if pos == |inp| {
          return ToMarker(out, pos);
        }
        c := inp[pos];
        pos := pos + 1;
        if c != 0 && c / 8 != 26 {
          if c == 217 {
            return ToEndOfImage(out + [255, 217], pos);
          }
          return ToMarker(out, pos);
        }
        out := out + [255, c];
      } else {
        out := out + [c];
      }
    }
    return Endless(out);
  }

  /** Every FF is followed by 00 or a restart marker number. */
  predicate Scannable(s: seq<byte>) {
    s == [] ||
    if s[0] != 255 then Scannable(s[1..]) else |s| >= 2 && Continues(s[1]) && Scannable(s[2..])
  }

  lemma {:induction false} ScannableAppend(a: seq<byte>, b: seq<byte>)
    requires Scannable(a) && Scannable(b)
    ensures Scannable(a + b)
  {
    if a == [] {
      assert a + b == b;
    } else if a[0] != 255 {
      ScannableAppend(a[1..], b);
      assert (a + b)[1..] == a[1..] + b;
    } else {
      ScannableAppend(a[2..], b);
      assert (a + b)[2..] == a[2..] + b && (a + b)[1] == a[1];
    }
  }

  lemma {:induction false} StuffScannable(data: seq<byte>)
    ensures Scannable(Stuff(data))
  {
    if data == [] {
    } else {
      StuffScannable(data[1..]);
      var s := Stuff(data);
      if data[0] == 255 {
        assert s[2..] == Stuff(data[1..]);
      } else {
        assert s[1..] == Stuff(data[1..]);
      }
    }
  }

  lemma SegmentScannable(seg: seq<bool>)
    ensures Scannable(Close(seg))
  {
    hide Stuff, Pack, Padded8, Scannable;
    StuffScannable(Pack(Padded8(seg)));
  }

  lemma MarkerScannable(r: nat)
    requires r < 8
    ensures Scannable([255, RST0 + r])
  {
    assert [255, RST0 + r][2..] == [];
  }

  /** A scan consists of copyable bytes and EOI. */
  lemma {:induction false} FrameScannable(segs: seq<seq<bool>>, r: nat) returns (body: seq<byte>)
    requires segs != [] && r < 8
    ensures Frame(segs, r) == body + [255, EOI] && Scannable(body)
  {
    hide Close, Scannable;
    var c := Close(segs[0]);
    SegmentScannable(segs[0]);
    if |segs| == 1 {
      body := c;
    } else {
      var rest := FrameScannable(segs[1..], (r + 1) % 8);
      MarkerScannable(r);
      ScannableAppend([255, RST0 + r], rest);
      ScannableAppend(c, [255, RST0 + r] + rest);
      body := c + ([255, RST0 + r] + rest);
    }
  }

  /** What follows the copied bytes: the end of the file, an FF at its end, EOI, or FF and any
      other code. */
  function Stopped(inp: seq<byte>, pos: nat, copied: seq<byte>): Copy
    requires pos <= |inp|
  {
    if pos == |inp| then Endless(copied)
    else if pos + 1 == |inp| then ToMarker(copied, pos + 1)
    else if inp[pos + 1] == EOI then ToEndOfImage(copied + [255, EOI], pos + 2)
    else ToMarker(copied, pos + 2)
  }

  /** The copy goes on over bytes other than FF, stuffed FF and restart markers, whatever they are,
      and stops at the first FF that neither 00 nor a restart marker number follows. */
  lemma {:induction false} CopyScannable(inp: seq<byte>, pos: nat, out: seq<byte>, end: nat)
    requires pos <= end <= |inp| && Scannable(inp[pos..end])
    requires end < |inp| ==> inp[end] == 255 && (end + 1 < |inp| ==> !Continues(inp[end + 1]))
    ensures CopyFrom(inp, pos, out) == Stopped(inp, end, out + inp[pos..end])
    decreases end - pos
  {
    var body := inp[pos..end];
    if pos == end {
      assert out + body == out;
    } else if inp[pos] != 255 {
      assert body[1..] == inp[pos + 1..end];
      CopyScannable(inp, pos + 1, out + [inp[pos]], end);
      assert out + [inp[pos]] + body[1..] == out + body;
    } else {
      assert body[2..] == inp[pos + 2..end] && body[1] == inp[pos + 1];
      CopyScannable(inp, pos + 2, out + [255, inp[pos + 1]], end);
      assert out + [255, inp[pos + 1]] + body[2..] == out + body;
    }
  }

  /** Every input has such a place, so this describes the copy of every input. */
  lemma {:induction false} CopyStops(inp: seq<byte>, pos: nat) returns (end: nat)
    requires pos <= |inp|
    ensures pos <= end <= |inp| && Scannable(inp[pos..end])
    ensures end < |inp| ==> inp[end] == 255 && (end + 1 < |inp| ==> !Continues(inp[end + 1]))
    decreases |inp| - pos
  {
    if pos == |inp| || (inp[pos] == 255 && (pos + 1 == |inp| || !Continues(inp[pos + 1]))) {
      end := pos;
    } else if inp[pos] != 255 {
      end := CopyStops(inp, pos + 1);
      assert inp[pos..end][1..] == inp[pos + 1..end];
    } else {
      end := CopyStops(inp, pos + 2);
      assert inp[pos..end][2..] == inp[pos + 2..end];
    }
  }

  /** The copy of a scan in a file is the scan, byte for byte, and stops exactly at its end. */
  lemma CopyIsIdentity(before: seq<byte>, segs: seq<seq<bool>>, r: nat, after: seq<byte>)
    requires segs != [] && r < 8
    ensures var scan := Frame(segs, r);
      CopyFrom(before + scan + after, |before|, []) == ToEndOfImage(scan, |before| + |scan|)
  {
    hide Frame, Scannable, CopyFrom;
    var scan := Frame(segs, r);
    var body := FrameScannable(segs, r);
    var inp := before + scan + after;
    var end := |before| + |body|;
    assert inp == before + (body + [255, EOI]) + after;
    assert inp[|before|..end] == body && inp[end] == 255 && inp[end + 1] == EOI;
    CopyScannable(inp, |before|, [], end);
    assert [] + body + [255, EOI] == scan;
  }
}
