/** Lines coded as running differences: every line but the first as biased differences from the
    line before, each in four bytes. Nothing is lost, for any number of lines. */
module RunningDifferences {
  import opened Words
  import opened ColourConversion
  import opened LineChunks

  // ---- four bytes

  function ByteOf(v: int, k: nat): (b: int)
    ensures 0 <= b < 256
  {
    (if k == 0 then v else if k == 1 then v / 256 else if k == 2 then v / 65536 else v / 16777216) % 256
  }

  /** The int that four bytes, lowest first, are put together to. */
  function FromBytes(b0: int, b1: int, b2: int, b3: int): int32 {
    Wrap32(b0 + b1 * 256 + b2 * 65536 + b3 * 16777216)
  }

  /** The bytes are those of the value modulo 2^32, the lowest first. */
  lemma BytesAreDigits(v: int32)
    ensures ByteOf(v, 0) + 256 * ByteOf(v, 1) + 65536 * ByteOf(v, 2) + 16777216 * ByteOf(v, 3) == v % 0x1_0000_0000
  {
    var q1, q2, q3 := v / 256, v / 65536, v / 16777216;
    DivDiv(v, 256, 256);
    DivDiv(v, 65536, 256);
    DivUnique(v, 0x1_0000_0000, q3 / 256, v - q3 / 256 * 0x1_0000_0000);
  }

  /** Writing the four bytes of any 32-bit value and reading them gives it back. */
  lemma FourBytes(v: int32)
    ensures FromBytes(ByteOf(v, 0), ByteOf(v, 1), ByteOf(v, 2), ByteOf(v, 3)) == v
  {
    var q1, q2, q3 := v / 256, v / 65536, v / 16777216;
    DivDiv(v, 256, 256);
    DivDiv(v, 65536, 256);
    var rest := q3 / 256;
    assert ByteOf(v, 0) + ByteOf(v, 1) * 256 + ByteOf(v, 2) * 65536 + ByteOf(v, 3) * 16777216 ==
      v - rest * 0x1_0000_0000;
    DivUnique(v - rest * 0x1_0000_0000 + 0x8000_0000, 0x1_0000_0000, -rest, v + 0x8000_0000);
  }

  function Serialised(s: seq<int>): (bytes: seq<int>)
    ensures |bytes| == 4 * |s|
  {
    seq(4 * |s|, p requires 0 <= p < 4 * |s| => ByteOf(s[p / 4], p % 4))
  }

  lemma SerialisedSlice(s: seq<int>, lo: nat, hi: nat)
    requires lo <= hi <= |s|
    ensures Serialised(s)[4 * lo..4 * hi] == Serialised(s[lo..hi])
  {
  }

  lemma SerialisedAt(s: seq<int>, j: nat)
    requires j < |s|
    ensures Serialised(s)[4 * j] == ByteOf(s[j], 0) && Serialised(s)[4 * j + 1] == ByteOf(s[j], 1)
    ensures Serialised(s)[4 * j + 2] == ByteOf(s[j], 2) && Serialised(s)[4 * j + 3] == ByteOf(s[j], 3)
  {
  }

  // ---- what the file holds

  /** The bias keeps the coded differences of all lines but the first from being negative often. */
  function Bias(y: nat): int {
    if y == 0 then 0 else 127
  }

  function DifferenceLine(line: seq<int>, before: seq<int>, y: nat): (d: seq<int>)
    requires |line| == |before|
    ensures |d| == |line|
  {
    seq(|line|, i requires 0 <= i < |line| => line[i] - before[i] + Bias(y))
  }

  /** Line y as it is coded. */
  ghost function Code(image: seq<seq<int>>, n: nat, y: nat): (line: seq<int>)
    requires IsImage(image, n) && y < |image|
    ensures |line| == n
  {
    DifferenceLine(image[y], LineBefore(image, n, y), y)
  }

  ghost function CodedLines(image: seq<seq<int>>, n: nat): (lines: seq<seq<int>>)
    requires IsImage(image, n)
    ensures |lines| == |image| && AllOfLength(lines, 4 * n)
  {
    seq(|image|, y requires 0 <= y < |image| => Serialised(Stored(Code(image, n, y))))
  }

  predicate Words32(s: seq<int>) {
    forall i :: 0 <= i < |s| ==> -0x8000_0000 <= s[i] < 0x8000_0000
  }

  // ---- the extractor

  /** The first n samples of a line are coded and remembered. */
  ghost predicate CodedTo(band: seq<int>, linebefore: seq<int>, ycc: seq<int>, before: seq<int>, y: nat, n: nat) {
    && n <= |band| == |ycc| == |before| <= |linebefore|
    && (forall i :: 0 <= i < n ==> band[i] == ycc[i] - before[i] + Bias(y) && linebefore[i] == ycc[i])
    && (forall i :: n <= i < |band| ==> linebefore[i] == before[i])
  }

  lemma CodedNothing(band: seq<int>, linebefore: seq<int>, ycc: seq<int>, before: seq<int>, y: nat)
    requires |band| == |ycc| == |before| <= |linebefore| && before == linebefore[..|before|]
    ensures CodedTo(band, linebefore, ycc, before, y, 0)
  {
  }

  lemma CodedAll(band: seq<int>, linebefore: seq<int>, ycc: seq<int>, before: seq<int>, y: nat)
    requires CodedTo(band, linebefore, ycc, before, y, |band|)
    ensures |ycc| == |before| == |band| <= |linebefore|
    ensures band == DifferenceLine(ycc, before, y) && linebefore[..|band|] == ycc
  {
  }

  /** The first line is coded as it is. In every later one an unchanged sample is coded as 127, and
      the values are from -128 to 382, both of which occur. */
  lemma DifferenceRange(line: seq<int>, before: seq<int>, y: nat, i: nat)
    requires |line| == |before| && i < |line| && 0 <= line[i] < 256 && 0 <= before[i] < 256
    ensures y == 0 && before[i] == 0 ==> DifferenceLine(line, before, y)[i] == line[i]
    ensures y > 0 ==> -128 <= DifferenceLine(line, before, y)[i] <= 382
    ensures y > 0 && line[i] == before[i] ==> DifferenceLine(line, before, y)[i] == 127
    ensures y > 0 && line[i] == 0 && before[i] == 255 ==> DifferenceLine(line, before, y)[i] == -128
    ensures y > 0 && line[i] == 255 && before[i] == 0 ==> DifferenceLine(line, before, y)[i] == 382
  {
    assert DifferenceLine(line, before, y)[i] == line[i] - before[i] + Bias(y);
  }

  lemma DifferencesFit(line: seq<int>, before: seq<int>, y: nat)
    requires |line| == |before| && Bytes(line) && Bytes(before)
    ensures Words32(DifferenceLine(line, before, y))
  {
    forall i | 0 <= i < |line|
      ensures -255 <= DifferenceLine(line, before, y)[i] <= 382
    {
      assert DifferenceLine(line, before, y)[i] == line[i] - before[i] + Bias(y);
      assert 0 <= line[i] < 256 && 0 <= before[i] < 256;
    }
  }

  /** One sample against the one remembered at its place. */
  method CodeSample(v: int, i: nat, y: nat, linebefore: array<int>, band: array<int>, ghost ycc: seq<int>,
                    ghost before: seq<int>)
    requires i < band.Length && band != linebefore
    requires CodedTo(band[..], linebefore[..], ycc, before, y, i) && v == ycc[i]
    modifies linebefore, band
    ensures CodedTo(band[..], linebefore[..], ycc, before, y, i + 1)
  {
    var d := v - linebefore[i];
    if y != 0 {
      d := d + 127;
    }
    linebefore[i] := v;
    band[i] := d;
  }

  /** A line is converted pixel by pixel; its differences are left in the band as ints and the
      line is remembered. */
  method CodeLine(rgb: seq<int>, y: nat, linebefore: array<int>, band: array<int>)
    requires |rgb| % 3 == 0 && |rgb| == band.Length <= linebefore.Length && band != linebefore
    requires Bytes(linebefore[..|rgb|])
    modifies linebefore, band
    ensures band[..] == DifferenceLine(YccLine(rgb), old(linebefore[..|rgb|]), y) && Words32(band[..])
    ensures linebefore[..|rgb|] == YccLine(rgb)
  {
    hide ToYcc, YccLine, CodedTo, Bytes, RgbAt, DifferenceLine, Words32;
    ghost var before, ycc := linebefore[..|rgb|], YccLine(rgb);
    YccBytes(rgb);
    CodedNothing(band[..], linebefore[..], ycc, before, y);
    var x := 0;
    while 3 * x < |rgb|
      invariant 3 * x <= |rgb| && CodedTo(band[..], linebefore[..], ycc, before, y, 3 * x)
    {
      WholePixel(|rgb|, x);
      PixelSamples(rgb, x);
      var c := ToYcc(RgbAt(rgb, x));
      CodeSample(c.l, 3 * x, y, linebefore, band, ycc, before);
      CodeSample(c.cb, 3 * x + 1, y, linebefore, band, ycc, before);
      CodeSample(c.cr, 3 * x + 2, y, linebefore, band, ycc, before);
      x := x + 1;
    }
    CodedAll(band[..], linebefore[..], ycc, before, y);
    DifferencesFit(ycc, before, y);
  }

  lemma FourAt(s: seq<int>, j: nat)
    requires j < |s|
    ensures Serialised(s)[4 * j..4 * j + 4] == [ByteOf(s[j], 0), ByteOf(s[j], 1), ByteOf(s[j], 2), ByteOf(s[j], 3)]
  {
    hide Serialised, ByteOf;
    SerialisedAt(s, j);
  }

  lemma ShiftedBytes(v: int32)
    ensures v % 256 == ByteOf(v, 0) && Shr(v, 8) % 256 == ByteOf(v, 1)
    ensures Shr(v, 16) % 256 == ByteOf(v, 2) && Shr(v, 24) % 256 == ByteOf(v, 3)
  {
    Pow2Values();
    Pow2Add(16, 8);
  }

  /** Four bytes from place p on make up v, the lowest first. */
  predicate LowestFirst(file: seq<int>, p: nat, v: int) {
    && p + 4 <= |file|
    && file[p] + 256 * file[p + 1] + 65536 * file[p + 2] + 16777216 * file[p + 3] == v % 0x1_0000_0000
  }

  lemma SerialisedLowestFirst(file: seq<int>, s: seq<int>, j: nat)
    requires Words32(s) && j < |s|
    ensures LowestFirst(file + Serialised(s), |file| + 4 * j, s[j])
  {
    hide ByteOf, Serialised;
    SerialisedAt(s, j);
    BytesAreDigits(s[j]);
  }

  /** The 64 values of one component of a chunk go to the file, four bytes each. */
  method PutComponent(buffer: array<int>, file: seq<int>) returns (out: seq<int>)
    requires buffer.Length == CHUNK && Words32(buffer[..])
    ensures out == file + Serialised(buffer[..])
    ensures forall j :: 0 <= j < CHUNK ==> LowestFirst(out, |file| + 4 * j, buffer[j])
  {
    hide Serialised, ByteOf, Shr, LowestFirst;
    ghost var s := Serialised(buffer[..]);
    out := file;
    for j := 0 to CHUNK
      invariant out == file + s[..4 * j]
    {
      assert buffer[j] == buffer[..][j];
      FourAt(buffer[..], j);
      PrefixGrows(file, s, 4 * j, 4 * j + 4);
      var v: int32 := buffer[j];
      ShiftedBytes(v);
      out := out + [v % 256, Shr(v, 8) % 256, Shr(v, 16) % 256, Shr(v, 24) % 256];
    }
    assert s[..256] == s;
    forall j | 0 <= j < CHUNK
      ensures LowestFirst(out, |file| + 4 * j, buffer[j])
    {
      assert buffer[j] == buffer[..][j];
      SerialisedLowestFirst(file, buffer[..], j);
    }
  }

  lemma ComponentWords(band: seq<int>, x: nat)
    requires 3 * x + 192 <= |band| && Words32(band)
    ensures Words32(Component(band, x, 0)) && Words32(Component(band, x, 1)) && Words32(Component(band, x, 2))
  {
  }

  /** A chunk: its three components one after the other. */
  method PutChunk(band: array<int>, x: nat, lb: array<int>, cbb: array<int>, crb: array<int>, file: seq<int>)
    returns (out: seq<int>)
    requires band.Length % 192 == 0 && Words32(band[..]) && x % 64 == 0 && 3 * x + 192 <= band.Length
    requires lb.Length == cbb.Length == crb.Length == CHUNK
    requires lb != cbb && lb != crb && cbb != crb && band != lb && band != cbb && band != crb
    modifies lb, cbb, crb
    ensures out == file + Serialised(Stored(band[..]))[12 * x..12 * x + 768]
  {
    hide *;
    ghost var s := Stored(band[..]);
    ghost var b := Serialised(s);
    Grab(band, x, lb, cbb, crb);
    ComponentWords(band[..], x);
    StoredComponent(band[..], x, 0);
    StoredComponent(band[..], x, 1);
    StoredComponent(band[..], x, 2);
    out := PutComponent(lb, file);
    out := PutComponent(cbb, out);
    out := PutComponent(crb, out);
    SerialisedSlice(s, 3 * x, 3 * x + 64);
    SerialisedSlice(s, 3 * x + 64, 3 * x + 128);
    SerialisedSlice(s, 3 * x + 128, 3 * x + 192);
    ThreeSlices(file, b, 12 * x, 12 * x + 256, 12 * x + 512, 12 * x + 768);
  }

  /** A line, chunk by chunk. */
  method PutLine(band: array<int>, file: seq<int>) returns (out: seq<int>)
    requires band.Length % 192 == 0 && Words32(band[..])
    ensures out == file + Serialised(Stored(band[..]))
  {
    hide Stored, Words32, Serialised;
    ghost var b := Serialised(Stored(band[..]));
    var lb, cbb, crb := new int[CHUNK], new int[CHUNK], new int[CHUNK];
    out := file;
    var x := 0;
    while 3 * x < band.Length
      invariant x % 64 == 0 && 3 * x <= band.Length && out == file + b[..12 * x]
    {
      ChunkFits(band.Length, x);
      out := PutChunk(band, x, lb, cbb, crb, out);
      PrefixGrows(file, b, 12 * x, 12 * x + 768);
      x := x + 64;
    }
    assert b[..12 * x] == b;
  }

  /** Line y: its differences, then its chunks. */
  method PutNext(rgb: seq<int>, ghost image: seq<seq<int>>, n: nat, y: nat, linebefore: array<int>, band: array<int>,
                 file: seq<int>)
    returns (out: seq<int>)
    requires IsImage(image, n) && y < |image| && |rgb| % 3 == 0 && image[y] == YccLine(rgb)
    requires linebefore.Length == 5760 && band.Length == n && band != linebefore
    requires linebefore[..n] == LineBefore(image, n, y)
    modifies linebefore, band
    ensures out == file + Serialised(Stored(Code(image, n, y))) && linebefore[..n] == LineBefore(image, n, y + 1)
  {
    hide Bytes, DifferenceLine, Stored, Zeros, Words32, Serialised;
    CodeLine(rgb, y, linebefore, band);
    out := PutLine(band, file);
  }

  lemma CodedLineAt(image: seq<seq<int>>, n: nat, y: nat)
    requires IsImage(image, n) && y < |image|
    ensures CodedLines(image, n)[y] == Serialised(Stored(Code(image, n, y)))
  {
    hide Stored, Code, IsImage, Serialised;
  }

  /** The whole extractor. */
  method Extract(rgb: seq<seq<int>>, linesize: nat) returns (file: seq<int>)
    requires IsImage(rgb, linesize)
    ensures file == Concat(CodedLines(YccImage(rgb, linesize), linesize))
  {
    hide IsImage, Concat, Code, CodedLines, Stored, LineBefore, AllOfLength, Serialised, YccImage, YccLine;
    ghost var image := YccImage(rgb, linesize);
    assert linesize % 192 == 0 && linesize <= 5760 by { ImageShape(image, linesize); }
    var linebefore := new int[5760](_ => 0);
    var band := new int[linesize];
    ghost var lines := CodedLines(image, linesize);
    assert linebefore[..linesize] == LineBefore(image, linesize, 0) by { StartsDark(linebefore, image, linesize); }
    file := [];
    assert Concat(lines[..0]) == [] by { ConcatEmpty(lines[..0]); }
    for y := 0 to |rgb|
      invariant linebefore[..linesize] == LineBefore(image, linesize, y)
      invariant file == Concat(lines[..y])
    {
      file := PutNext(rgb[y], image, linesize, y, linebefore, band, file);
      ConcatStep(lines, y);
      assert lines[y] == Serialised(Stored(Code(image, linesize, y))) by { CodedLineAt(image, linesize, y); }
    }
    assert lines[..|image|] == lines;
  }

  /** The file holds the image's lines, coded, in storage order, four bytes a value. */
  ghost predicate IsFile(file: seq<int>, image: seq<seq<int>>, n: nat) {
    && IsImage(image, n) && |file| == |image| * (4 * n)
    && forall y :: 0 <= y < |image| ==> StoredLine(file, 4 * n, y, |image|) == Serialised(Stored(Code(image, n, y)))
  }

  lemma ExtractedFile(image: seq<seq<int>>, n: nat)
    requires IsImage(image, n)
    ensures IsFile(Concat(CodedLines(image, n)), image, n)
  {
    hide Concat, StoredLine, Stored, Code, Serialised;
    ConcatLength(CodedLines(image, n), 4 * n);
    forall y | 0 <= y < |image|
      ensures StoredLine(Concat(CodedLines(image, n)), 4 * n, y, |image|) == Serialised(Stored(Code(image, n, y)))
    {
      ConcatLine(CodedLines(image, n), 4 * n, y);
    }
  }

  // ---- the builder

  /** The builder remembers a line component by component, 1920 values each. */
  function Plane(linebefore: seq<int>, c: nat): (s: seq<int>)
    requires |linebefore| == 5760 && c < 3
    ensures |s| == 1920
  {
    linebefore[1920 * c..1920 * c + 1920]
  }

  /** Component c of a line. */
  function PlaneOf(line: seq<int>, c: nat): (s: seq<int>)
    requires |line| % 192 == 0 && c < 3
    ensures 3 * |s| == |line|
  {
    seq(|line| / 3, k requires 0 <= k < |line| / 3 => line[3 * k + c])
  }

  /** The planes hold the line `after` up to pixel x and the line `before` from there on. */
  ghost predicate Split(linebefore: seq<int>, after: seq<int>, before: seq<int>, x: nat)
    requires |linebefore| == 5760 && |after| == |before| && |after| % 192 == 0 && 3 * x <= |after| <= 5760
  {
    forall c :: 0 <= c < 3 ==>
      && Plane(linebefore, c)[..x] == PlaneOf(after, c)[..x]
      && Plane(linebefore, c)[x..|after| / 3] == PlaneOf(before, c)[x..]
  }

  lemma ComponentOfPlane(line: seq<int>, x: nat, c: nat)
    requires |line| % 192 == 0 && 3 * x + 192 <= |line| && c < 3
    ensures Component(line, x, c) == PlaneOf(line, c)[x..x + 64]
  {
  }

  lemma InPlane(s0: seq<int>, c: nat, x: nat, j: nat)
    requires |s0| == 5760 && c < 3 && x + 64 <= 1920 && j < 64
    ensures s0[1920 * c + x + j] == Plane(s0, c)[x..x + 64][j]
  {
  }

  lemma PlanesAfter(s0: seq<int>, s1: seq<int>, c: nat, x: nat, after: seq<int>)
    requires |s0| == |s1| == 5760 && c < 3 && x + 64 <= 1920 && |after| == 64
    requires forall i :: 0 <= i < 5760 ==>
      s1[i] == if 1920 * c + x <= i < 1920 * c + x + 64 then after[i - (1920 * c + x)] else s0[i]
    ensures Plane(s1, c) == Plane(s0, c)[..x] + after + Plane(s0, c)[x + 64..]
    ensures forall d :: 0 <= d < 3 && d != c ==> Plane(s1, d) == Plane(s0, d)
  {
  }

  lemma DecodedSample(file: seq<int>, at: nat, after: seq<int>, before: seq<int>, y: nat, j: nat)
    requires at + 256 <= |file| && |after| == |before| == 64 && Bytes(after) && Bytes(before) && j < 64
    requires file[at..at + 256] == Serialised(DifferenceLine(after, before, y))
    ensures FromBytes(file[at + 4 * j], file[at + 4 * j + 1], file[at + 4 * j + 2], file[at + 4 * j + 3])
      == after[j] - before[j] + Bias(y)
    ensures 0 <= after[j] < 256 && 0 <= before[j] < 256
  {
    var d := DifferenceLine(after, before, y);
    assert d[j] == after[j] - before[j] + Bias(y);
    hide Serialised, ByteOf, FromBytes, DifferenceLine;
    SerialisedAt(d, j);
    var s := file[at..at + 256];
    assert s[4 * j] == file[at + 4 * j] && s[4 * j + 1] == file[at + 4 * j + 1];
    assert s[4 * j + 2] == file[at + 4 * j + 2] && s[4 * j + 3] == file[at + 4 * j + 3];
    FourBytes(d[j]);
  }

  /** Read 64 values of component c of the chunk at pixel x and add them to the line before. */
  method GetComponent(file: seq<int>, at: nat, x: nat, c: nat, y: nat, linebefore: array<int>, buffer: array<int>,
                      ghost after: seq<int>, ghost before: seq<int>)
    requires buffer.Length == CHUNK && c < 3 && at + 256 <= |file| && linebefore.Length == 5760 && buffer != linebefore
    requires x + 64 <= 1920 && |after| == |before| == 64 && Bytes(after) && Bytes(before)
    requires file[at..at + 256] == Serialised(DifferenceLine(after, before, y))
    requires Plane(linebefore[..], c)[x..x + 64] == before
    modifies linebefore, buffer
    ensures buffer[..] == after
    ensures Plane(linebefore[..], c) ==
      old(Plane(linebefore[..], c))[..x] + after + old(Plane(linebefore[..], c))[x + 64..]
    ensures forall d :: 0 <= d < 3 && d != c ==> Plane(linebefore[..], d) == old(Plane(linebefore[..], d))
  {
    hide Serialised, DifferenceLine, FromBytes, Bytes;
    ghost var s0, p := linebefore[..], 1920 * c + x;
    var ifmin127 := if y != 0 then 127 else 0;
    for j := 0 to 64
      invariant forall k :: 0 <= k < j ==> buffer[k] == after[k]
      invariant forall i :: 0 <= i < 5760 ==> linebefore[i] == if p <= i < p + j then after[i - p] else s0[i]
    {
      DecodedSample(file, at, after, before, y, j);
      InPlane(s0, c, x, j);
      var v: int32 := FromBytes(file[at + 4 * j], file[at + 4 * j + 1], file[at + 4 * j + 2], file[at + 4 * j + 3]);
      v := v - ifmin127;
      v := v + linebefore[1920 * c + x + j];
      linebefore[1920 * c + x + j] := v;
      buffer[j] := v;
    }
    PlanesAfter(s0, linebefore[..], c, x, after);
  }

  lemma ComponentBytes(line: seq<int>, x: nat, c: nat)
    requires 3 * x + 192 <= |line| && c < 3 && Bytes(line)
    ensures Bytes(Component(line, x, c))
  {
  }

  lemma CodedComponent(file: seq<int>, at: nat, x: nat, c: nat, line: seq<int>, before: seq<int>, y: nat)
    requires |line| == |before| && |line| % 192 == 0 && at + 4 * |line| <= |file|
    requires x % 64 == 0 && 3 * x + 192 <= |line| && c < 3
    requires file[at..at + 4 * |line|] == Serialised(Stored(DifferenceLine(line, before, y)))
    ensures file[at + 12 * x + 256 * c..at + 12 * x + 256 * c + 256] ==
      Serialised(DifferenceLine(Component(line, x, c), Component(before, x, c), y))
  {
    hide Stored, Serialised;
    var d := DifferenceLine(line, before, y);
    var p := 3 * x + 64 * c;
    assert Component(d, x, c) == DifferenceLine(Component(line, x, c), Component(before, x, c), y);
    hide DifferenceLine, Component;
    StoredComponent(d, x, c);
    SerialisedSlice(Stored(d), p, p + 64);
    SliceOfSlice(file, at, at + 4 * |line|, 4 * p, 4 * p + 256);
  }

  lemma UnreadComponent(linebefore: seq<int>, line: seq<int>, before: seq<int>, x: nat, c: nat)
    requires |line| == |before| <= 5760 == |linebefore| && |line| % 192 == 0 && 3 * x + 192 <= |line| && c < 3
    requires Split(linebefore, line, before, x)
    ensures Plane(linebefore, c)[x..x + 64] == Component(before, x, c)
  {
    hide Plane, PlaneOf, Component;
    var plane, original, w := Plane(linebefore, c), PlaneOf(before, c), |line| / 3;
    assert plane[x..w][..64] == plane[x..x + 64] && original[x..][..64] == original[x..x + 64];
    ComponentOfPlane(before, x, c);
  }

  lemma ChunkInFile(file: seq<int>, at: nat, x: nat, c: nat, line: seq<int>, before: seq<int>, y: nat,
                    linebefore: seq<int>)
    requires |line| == |before| <= 5760 == |linebefore| && |line| % 192 == 0 && at + 4 * |line| <= |file|
    requires x % 64 == 0 && 3 * x + 192 <= |line| && c < 3 && Bytes(line) && Bytes(before)
    requires file[at..at + 4 * |line|] == Serialised(Stored(DifferenceLine(line, before, y)))
    requires Split(linebefore, line, before, x)
    ensures file[at + 12 * x + 256 * c..at + 12 * x + 256 * c + 256] ==
      Serialised(DifferenceLine(Component(line, x, c), Component(before, x, c), y))
    ensures Plane(linebefore, c)[x..x + 64] == Component(before, x, c)
    ensures Bytes(Component(line, x, c)) && Bytes(Component(before, x, c))
  {
    hide Stored, Serialised, DifferenceLine, Bytes, Component, PlaneOf, Plane, Split;
    CodedComponent(file, at, x, c, line, before, y);
    UnreadComponent(linebefore, line, before, x, c);
    ComponentBytes(line, x, c);
    ComponentBytes(before, x, c);
  }

  lemma PlaneGrows(p0: seq<int>, p1: seq<int>, after: seq<int>, before: seq<int>, x: nat)
    requires |after| == |before| <= |p0| && x + 64 <= |after|
    requires p0[..x] == after[..x] && p0[x..|after|] == before[x..]
    requires p1 == p0[..x] + after[x..x + 64] + p0[x + 64..]
    ensures |p1| == |p0| && p1[..x + 64] == after[..x + 64] && p1[x + 64..|after|] == before[x + 64..]
  {
    assert after[..x + 64] == after[..x] + after[x..x + 64];
    assert p0[x..|after|][64..] == p0[x + 64..|after|] && before[x..][64..] == before[x + 64..];
    assert p1[x + 64..|after|] == p0[x + 64..|after|];
  }

  /** Once all three components of a chunk are done, the planes are split 64 pixels further on. */
  lemma SplitGrows(s0: seq<int>, s1: seq<int>, line: seq<int>, before: seq<int>, x: nat)
    requires |s0| == |s1| == 5760 && |line| == |before| <= 5760 && |line| % 192 == 0 && 3 * x + 192 <= |line|
    requires Split(s0, line, before, x)
    requires forall c :: 0 <= c < 3 ==>
      Plane(s1, c) == Plane(s0, c)[..x] + Component(line, x, c) + Plane(s0, c)[x + 64..]
    ensures Split(s1, line, before, x + 64)
  {
    hide Plane, PlaneOf, Component;
    forall c | 0 <= c < 3
      ensures Plane(s1, c)[..x + 64] == PlaneOf(line, c)[..x + 64]
      ensures Plane(s1, c)[x + 64..|line| / 3] == PlaneOf(before, c)[x + 64..]
    {
      ComponentOfPlane(line, x, c);
      PlaneGrows(Plane(s0, c), Plane(s1, c), PlaneOf(line, c), PlaneOf(before, c), x);
    }
  }

  /** One chunk of a line that starts at place `at` of the file. */
  method GetChunk(file: seq<int>, at: nat, x: nat, y: nat, linebefore: array<int>, band: array<int>,
                  lb: array<int>, cbb: array<int>, crb: array<int>, ghost line: seq<int>, ghost before: seq<int>)
    requires band.Length % 192 == 0 && band.Length <= 5760 == linebefore.Length && band != linebefore
    requires at + 4 * band.Length <= |file| && x % 64 == 0 && 3 * x + 192 <= band.Length == |line| == |before|
    requires Bytes(line) && Bytes(before)
    requires file[at..at + 4 * band.Length] == Serialised(Stored(DifferenceLine(line, before, y)))
    requires Split(linebefore[..], line, before, x)
    requires lb.Length == cbb.Length == crb.Length == CHUNK
    requires lb != cbb && lb != crb && cbb != crb
    requires linebefore != lb && linebefore != cbb && linebefore != crb && band != lb && band != cbb && band != crb
    modifies linebefore, band, lb, cbb, crb
    ensures Split(linebefore[..], line, before, x + 64)
    ensures forall i :: 3 * x <= i < 3 * x + 192 ==> band[i] == RgbLine(line)[i]
    ensures forall i :: 0 <= i < 3 * x ==> band[i] == old(band[i])
  {
    hide Stored, Component, Serialised, DifferenceLine, Bytes, Plane, PlaneOf, Split, RgbLine, ToRgb;
    ghost var s0 := linebefore[..];
    ChunkInFile(file, at, x, 0, line, before, y, s0);
    GetComponent(file, at + 12 * x, x, 0, y, linebefore, lb, Component(line, x, 0), Component(before, x, 0));
    ChunkInFile(file, at, x, 1, line, before, y, s0);
    GetComponent(file, at + 12 * x + 256, x, 1, y, linebefore, cbb, Component(line, x, 1), Component(before, x, 1));
    ChunkInFile(file, at, x, 2, line, before, y, s0);
    GetComponent(file, at + 12 * x + 512, x, 2, y, linebefore, crb, Component(line, x, 2), Component(before, x, 2));
    SplitGrows(s0, linebefore[..], line, before, x);
    Spread(lb, cbb, crb, band, x);
    ConvertedChunk(band[..], line, x, lb[..], cbb[..], crb[..]);
  }

  /** A line, chunk by chunk. */
  method GetLine(file: seq<int>, at: nat, y: nat, linebefore: array<int>, band: array<int>, ghost line: seq<int>,
                 ghost before: seq<int>)
    requires band.Length % 192 == 0 && band.Length <= 5760 == linebefore.Length && band != linebefore
    requires at + 4 * band.Length <= |file| && band.Length == |line| == |before| && Bytes(line) && Bytes(before)
    requires file[at..at + 4 * band.Length] == Serialised(Stored(DifferenceLine(line, before, y)))
    requires Split(linebefore[..], line, before, 0)
    modifies linebefore, band
    ensures band[..] == RgbLine(line) && Split(linebefore[..], line, before, band.Length / 3)
  {
    hide Stored, Serialised, DifferenceLine, Bytes, Split, RgbLine;
    var lb, cbb, crb := new int[CHUNK], new int[CHUNK], new int[CHUNK];
    var x := 0;
    while 3 * x < band.Length
      invariant x % 64 == 0 && 3 * x <= band.Length && Split(linebefore[..], line, before, x)
      invariant forall i :: 0 <= i < 3 * x ==> band[i] == RgbLine(line)[i]
    {
      ChunkFits(band.Length, x);
      GetChunk(file, at, x, y, linebefore, band, lb, cbb, crb, line, before);
      x := x + 64;
    }
  }

  /** Having taken over the whole of one line, the planes are ready for the next. */
  lemma NextSplit(linebefore: seq<int>, line: seq<int>, before: seq<int>, next: seq<int>)
    requires |linebefore| == 5760 && |line| == |before| == |next| <= 5760 && |line| % 192 == 0
    requires Split(linebefore, line, before, |line| / 3)
    ensures Split(linebefore, next, line, 0)
  {
    hide Plane, PlaneOf;
    forall c | 0 <= c < 3
      ensures Plane(linebefore, c)[0..|line| / 3] == PlaneOf(line, c)[0..]
    {
      assert Plane(linebefore, c)[..|line| / 3] == PlaneOf(line, c)[..|line| / 3] == PlaneOf(line, c);
    }
  }

  lemma FirstSplit(linebefore: seq<int>, n: nat, next: seq<int>)
    requires |linebefore| == 5760 && |next| == n <= 5760 && n % 192 == 0 && forall i :: 0 <= i < 5760 ==>
      linebefore[i] == 0
    ensures Split(linebefore, next, Zeros(n), 0)
  {
  }

  /** The picture of the lines. */
  ghost function Picture(image: seq<seq<int>>, n: nat): (picture: seq<seq<int>>)
    requires IsImage(image, n)
    ensures |picture| == |image|
    ensures forall y :: 0 <= y < |image| ==> |image[y]| % 3 == 0 && picture[y] == RgbLine(image[y])
  {
    seq(|image|, y requires 0 <= y < |image| => RgbLine(image[y]))
  }

  lemma LineStart(file: seq<int>, image: seq<seq<int>>, n: nat, y: nat)
    requires IsFile(file, image, n) && y < |image|
    ensures y * (4 * n) + 4 * n <= |file|
    ensures file[y * (4 * n)..y * (4 * n) + 4 * n] ==
      Serialised(Stored(DifferenceLine(image[y], LineBefore(image, n, y), y)))
  {
    hide Stored, Serialised, DifferenceLine;
    LineBounds(y, |image|, 4 * n);
    assert StoredLine(file, 4 * n, y, |image|) == Serialised(Stored(Code(image, n, y)));
  }

  /** The whole builder, on a file the extractor wrote: it works out exactly the lines that were
      coded, and converts them back. */
  method Build(file: seq<int>, linesize: nat, ysize: nat, ghost original: seq<seq<int>>)
    returns (picture: seq<seq<int>>)
    requires IsFile(file, original, linesize) && ysize == |original|
    ensures picture == Picture(original, linesize)
  {
    hide Stored, Serialised, DifferenceLine, Bytes, Split, StoredLine, RgbLine, Picture;
    ghost var all := Picture(original, linesize);
    var linebefore := new int[5760](_ => 0);
    var band := new int[linesize];
    picture := [];
    if ysize > 0 {
      FirstSplit(linebefore[..], linesize, original[0]);
    }
    for y := 0 to ysize
      invariant picture == all[..y]
      invariant y < ysize ==> Split(linebefore[..], original[y], LineBefore(original, linesize, y), 0)
    {
      LineStart(file, original, linesize, y);
      GetLine(file, y * (4 * linesize), y, linebefore, band, original[y], LineBefore(original, linesize, y));
      picture := picture + [band[..]];
      if y + 1 < ysize {
        NextSplit(linebefore[..], original[y], LineBefore(original, linesize, y), original[y + 1]);
      }
    }
  }

  /** Whatever the picture and however many lines it has, nothing but the colour conversions
      touches it: no sample is further than 2 below or 1 above what it was, and greys come back
      exactly. */
  method ThereAndBack(rgb: seq<seq<int>>, linesize: nat) returns (restored: seq<seq<int>>)
    requires IsImage(rgb, linesize)
    ensures restored == Picture(YccImage(rgb, linesize), linesize)
    ensures forall y, x :: 0 <= y < |rgb| && 0 <= x < linesize / 3 ==>
      |restored[y]| == linesize && PixelKept(RgbAt(rgb[y], x), RgbAt(restored[y], x), 0)
  {
    hide RgbLine, YccLine, PixelKept, IsFile, YccImage, Picture;
    ghost var image := YccImage(rgb, linesize);
    var file := Extract(rgb, linesize);
    ExtractedFile(image, linesize);
    restored := Build(file, linesize, |rgb|, image);
    forall y, x | 0 <= y < |rgb| && 0 <= x < linesize / 3
      ensures |restored[y]| == linesize && PixelKept(RgbAt(rgb[y], x), RgbAt(restored[y], x), 0)
    {
      ImageLine(rgb, linesize, y);
      LineThereAndBack(rgb[y], YccLine(rgb[y]), 0, x);
    }
  }
}
