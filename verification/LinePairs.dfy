/** Lines coded in pairs: even lines as they are, odd lines as halved differences from the line
    before. The images have any number of lines of whole 64-pixel chunks, at most 1920 pixels. */
module LinePairs {
  import opened ColourConversion
  import opened LineChunks

  // ---- what the formats hold

  function CodedSample(v: int, before: int, odd: bool): (d: int)
    ensures 0 <= v < 256 && 0 <= before < 256 ==> 0 <= d < 256
  {
    if odd then (v - before) / 2 + 128 else v
  }

  function CodedLine(line: seq<int>, before: seq<int>, odd: bool): (d: seq<int>)
    requires |line| == |before|
    ensures |d| == |line|
  {
    seq(|line|, i requires 0 <= i < |line| => CodedSample(line[i], before[i], odd))
  }

  /** Line y as it is coded. */
  ghost function Code(image: seq<seq<int>>, n: nat, y: nat): (line: seq<int>)
    requires IsImage(image, n) && y < |image|
    ensures |line| == n
  {
    CodedLine(image[y], LineBefore(image, n, y), y % 2 == 1)
  }

  /** The file the extractor writes, line by line. */
  ghost function CodedLines(image: seq<seq<int>>, n: nat): (lines: seq<seq<int>>)
    requires IsImage(image, n)
    ensures |lines| == |image| && AllOfLength(lines, n)
  {
    seq(|image|, y requires 0 <= y < |image| => Stored(Code(image, n, y)))
  }

  function RebuiltSample(d: int, before: int, odd: bool): int {
    if odd then ToByte((d - 128) * 2 + before) else d
  }

  /** What is stored: in even lines the sample, in odd ones 128 and half the difference to the line
      before, cut down. What is made of it is the byte nearest to twice that half and the line
      before. */
  lemma StoredAndRestored(v: int, before: int, d: int, b: int)
    requires 0 <= b < 256
    ensures CodedSample(v, before, false) == v && RebuiltSample(d, before, false) == d
    ensures v - before - 1 <= 2 * (CodedSample(v, before, true) - 128) <= v - before
    ensures var sum, r := before + 2 * (d - 128), RebuiltSample(d, before, true);
      0 <= r < 256 && (if r >= sum then r - sum else sum - r) <= (if b >= sum then b - sum else sum - b)
  {
  }

  function RebuiltLine(d: seq<int>, before: seq<int>, odd: bool): (line: seq<int>)
    requires |d| == |before|
    ensures |line| == |d|
  {
    seq(|d|, i requires 0 <= i < |d| => RebuiltSample(d[i], before[i], odd))
  }

  /** Line y as the builder makes it from a file. */
  function Rebuilt(stream: seq<int>, n: nat, h: nat, y: nat): (line: seq<int>)
    requires y < h && n % 192 == 0 && |stream| == h * n
    ensures |line| == n
  {
    RebuiltLine(Kept(StoredLine(stream, n, y, h)),
                if y == 0 then Zeros(n) else Rebuilt(stream, n, h, y - 1), y % 2 == 1)
  }

  function PictureLine(stream: seq<int>, n: nat, h: nat, y: nat): (line: seq<int>)
    requires y < h && n % 192 == 0 && |stream| == h * n
    ensures |line| == n
  {
    RgbLine(Rebuilt(stream, n, h, y))
  }

  /** The picture that the builder makes of a file. */
  function Picture(stream: seq<int>, n: nat, h: nat): (image: seq<seq<int>>)
    requires n % 192 == 0 && |stream| == h * n
    ensures |image| == h
  {
    seq(h, y requires 0 <= y < h => PictureLine(stream, n, h, y))
  }

  // ---- the extractor

  /** The first n samples of a line are coded and remembered. */
  ghost predicate CodedTo(band: seq<int>, linebefore: seq<int>, ycc: seq<int>, before: seq<int>, odd: bool, n: nat) {
    && n <= |band| == |ycc| == |before| <= |linebefore|
    && (forall i :: 0 <= i < n ==> band[i] == CodedSample(ycc[i], before[i], odd) && linebefore[i] == ycc[i])
    && (forall i :: n <= i < |band| ==> linebefore[i] == before[i])
  }

  lemma CodedNothing(band: seq<int>, linebefore: seq<int>, ycc: seq<int>, before: seq<int>, odd: bool)
    requires |band| == |ycc| == |before| <= |linebefore| && before == linebefore[..|before|]
    ensures CodedTo(band, linebefore, ycc, before, odd, 0)
  {
  }

  lemma CodedAll(band: seq<int>, linebefore: seq<int>, ycc: seq<int>, before: seq<int>, odd: bool)
    requires CodedTo(band, linebefore, ycc, before, odd, |band|)
    ensures |ycc| == |before| == |band| <= |linebefore|
    ensures band == CodedLine(ycc, before, odd) && linebefore[..|band|] == ycc
  {
  }

  lemma CodedMore(band: seq<int>, linebefore: seq<int>, ycc: seq<int>, before: seq<int>, odd: bool, i: nat)
    requires i < |band| && Bytes(ycc) && Bytes(before) && CodedTo(band, linebefore, ycc, before, odd, i)
    ensures linebefore[i] == before[i] && 0 <= ycc[i] < 256 && 0 <= before[i] < 256
    ensures CodedTo(band[i := CodedSample(ycc[i], before[i], odd)], linebefore[i := ycc[i]], ycc, before, odd, i + 1)
  {
    hide CodedSample;
  }

  /** One sample against the one remembered at its place. */
  method CodeSample(v: int, i: nat, lincnt: nat, linebefore: array<int>, band: array<int>,
                    ghost ycc: seq<int>, ghost before: seq<int>)
    requires i < band.Length && band != linebefore && Bytes(ycc) && Bytes(before)
    requires CodedTo(band[..], linebefore[..], ycc, before, lincnt % 2 == 1, i) && v == ycc[i]
    modifies linebefore, band
    ensures CodedTo(band[..], linebefore[..], ycc, before, lincnt % 2 == 1, i + 1)
  {
    CodedMore(band[..], linebefore[..], ycc, before, lincnt % 2 == 1, i);
    hide CodedTo, Bytes;
    var d := v;
    if lincnt % 2 != 0 {
      d := d - linebefore[i];
      d := d / 2 + 128;
    }
    linebefore[i] := v;
    band[i] := d % 256;
  }

  /** A line is converted pixel by pixel; its differences are left in the band and the line is
      remembered for the next. */
  method CodeLine(rgb: seq<int>, lincnt: nat, linebefore: array<int>, band: array<int>)
    requires |rgb| % 3 == 0 && |rgb| == band.Length <= linebefore.Length && band != linebefore
    requires Bytes(linebefore[..|rgb|])
    modifies linebefore, band
    ensures band[..] == CodedLine(YccLine(rgb), old(linebefore[..|rgb|]), lincnt % 2 == 1)
    ensures linebefore[..|rgb|] == YccLine(rgb)
  {
    hide ToYcc, YccLine, CodedTo, Bytes, RgbAt, CodedLine;
    ghost var before, ycc := linebefore[..|rgb|], YccLine(rgb);
    YccBytes(rgb);
    CodedNothing(band[..], linebefore[..], ycc, before, lincnt % 2 == 1);
    var x := 0;
    while 3 * x < |rgb|
      invariant 3 * x <= |rgb| && CodedTo(band[..], linebefore[..], ycc, before, lincnt % 2 == 1, 3 * x)
    {
      WholePixel(|rgb|, x);
      PixelSamples(rgb, x);
      var c := ToYcc(RgbAt(rgb, x));
      CodeSample(c.l, 3 * x, lincnt, linebefore, band, ycc, before);
      CodeSample(c.cb, 3 * x + 1, lincnt, linebefore, band, ycc, before);
      CodeSample(c.cr, 3 * x + 2, lincnt, linebefore, band, ycc, before);
      x := x + 1;
    }
    CodedAll(band[..], linebefore[..], ycc, before, lincnt % 2 == 1);
  }

  /** The 64 values of one component of a chunk go to the file, one byte each. */
  method PutComponent(buffer: array<int>, file: seq<int>) returns (out: seq<int>)
    requires buffer.Length == CHUNK && Bytes(buffer[..])
    ensures out == file + buffer[..]
  {
    out := file;
    for j := 0 to CHUNK
      invariant out == file + buffer[..j]
    {
      assert 0 <= buffer[..][j] < 256;
      out := out + [buffer[j] % 256];
    }
    assert buffer[..CHUNK] == buffer[..];
  }

  lemma ComponentBytes(band: seq<int>, x: nat)
    requires 3 * x + 192 <= |band| && Bytes(band)
    ensures Bytes(Component(band, x, 0)) && Bytes(Component(band, x, 1)) && Bytes(Component(band, x, 2))
  {
  }

  /** A chunk: its three components one after the other. */
  method PutChunk(band: array<int>, x: nat, lb: array<int>, cbb: array<int>, crb: array<int>, file: seq<int>)
    returns (out: seq<int>)
    requires band.Length % 192 == 0 && Bytes(band[..]) && x % 64 == 0 && 3 * x + 192 <= band.Length
    requires lb.Length == cbb.Length == crb.Length == CHUNK
    requires lb != cbb && lb != crb && cbb != crb && band != lb && band != cbb && band != crb
    modifies lb, cbb, crb
    ensures out == file + Stored(band[..])[3 * x..3 * x + 192]
  {
    hide Stored, Bytes, Component;
    ghost var s := Stored(band[..]);
    Grab(band, x, lb, cbb, crb);
    ComponentBytes(band[..], x);
    StoredComponent(band[..], x, 0);
    StoredComponent(band[..], x, 1);
    StoredComponent(band[..], x, 2);
    out := PutComponent(lb, file);
    out := PutComponent(cbb, out);
    out := PutComponent(crb, out);
    ThreeSlices(file, s, 3 * x, 3 * x + 64, 3 * x + 128, 3 * x + 192);
  }

  /** A line, chunk by chunk. */
  method PutLine(band: array<int>, file: seq<int>) returns (out: seq<int>)
    requires band.Length % 192 == 0 && Bytes(band[..])
    ensures out == file + Stored(band[..])
  {
    hide Stored, Bytes;
    ghost var s := Stored(band[..]);
    var lb, cbb, crb := new int[CHUNK], new int[CHUNK], new int[CHUNK];
    out := file;
    var x := 0;
    while 3 * x < band.Length
      invariant x % 64 == 0 && 3 * x <= band.Length && out == file + s[..3 * x]
    {
      ChunkFits(band.Length, x);
      out := PutChunk(band, x, lb, cbb, crb, out);
      PrefixGrows(file, s, 3 * x, 3 * x + 192);
      x := x + 64;
    }
    assert s[..3 * x] == s;
  }

  lemma CodedBytes(line: seq<int>, before: seq<int>, odd: bool)
    requires |line| == |before| && Bytes(line) && Bytes(before)
    ensures Bytes(CodedLine(line, before, odd))
  {
  }

  lemma CodedLineAt(image: seq<seq<int>>, n: nat, y: nat)
    requires IsImage(image, n) && y < |image|
    ensures CodedLines(image, n)[y] == Stored(Code(image, n, y))
  {
    hide Stored, Code, IsImage;
  }

  /** Line y: its differences, then its chunks. */
  method PutNext(rgb: seq<int>, ghost image: seq<seq<int>>, n: nat, y: nat, linebefore: array<int>, band: array<int>,
                 file: seq<int>)
    returns (out: seq<int>)
    requires IsImage(image, n) && y < |image| && |rgb| % 3 == 0 && image[y] == YccLine(rgb)
      && linebefore.Length == 5760 && band.Length == n && band != linebefore
    requires linebefore[..n] == LineBefore(image, n, y)
    modifies linebefore, band
    ensures out == file + Stored(Code(image, n, y)) && linebefore[..n] == LineBefore(image, n, y + 1)
  {
    hide Bytes, CodedLine, Stored, Zeros;
    CodedBytes(image[y], LineBefore(image, n, y), y % 2 == 1);
    CodeLine(rgb, y, linebefore, band);
    out := PutLine(band, file);
  }

  /** The whole extractor. */
  method Extract(rgb: seq<seq<int>>, linesize: nat) returns (file: seq<int>)
    requires IsImage(rgb, linesize)
    ensures file == Concat(CodedLines(YccImage(rgb, linesize), linesize))
  {
    hide IsImage, Concat, Code, CodedLines, Stored, LineBefore, AllOfLength, YccImage, YccLine;
    ghost var image := YccImage(rgb, linesize);
    assert linesize % 192 == 0 && linesize <= 5760 by { ImageShape(image, linesize); }
    var linebefore := new int[5760](_ => 0);
    var band := new int[linesize];
    ghost var lines := CodedLines(image, linesize);
    assert linebefore[..linesize] == LineBefore(image, linesize, 0) by { StartsDark(linebefore, image, linesize); }
    file := [];
    assert Concat(lines[..0]) == [] by { ConcatEmpty(lines[..0]); }
    for y := 0 to |rgb|
      invariant linebefore[..linesize] == LineBefore(image, linesize, y)
      invariant file == Concat(lines[..y])
    {
      file := PutNext(rgb[y], image, linesize, y, linebefore, band, file);
      ConcatStep(lines, y);
      assert lines[y] == Stored(Code(image, linesize, y)) by { CodedLineAt(image, linesize, y); }
    }
    assert lines[..|image|] == lines;
  }

  // ---- the builder

  /** Read 64 values of component c of the chunk at pixel x and undo the difference. */
  method GetComponent(file: seq<int>, at: nat, x: nat, c: nat, linecnt: nat, linebefore: array<int>, buffer: array<int>,
                      ghost line: seq<int>, ghost before: seq<int>)
    requires buffer.Length == CHUNK && c < 3 && at + 64 <= |file| && buffer != linebefore
    requires 3 * x + 192 <= |line| == |before| <= linebefore.Length
    requires file[at..at + 64] == Component(line, x, c)
    requires Component(linebefore[..], x, c) == Component(before, x, c)
    modifies linebefore, buffer
    ensures Component(linebefore[..], x, c) ==
      Component(RebuiltLine(line, before, linecnt % 2 == 1), x, c) == buffer[..]
    ensures forall i :: 0 <= i < linebefore.Length && !(3 * x <= i < 3 * x + 192 && i % 3 == c) ==>
      linebefore[i] == old(linebefore[i])
  {
    ghost var rebuilt, old64 := RebuiltLine(line, before, linecnt % 2 == 1), Component(before, x, c);
    for j := 0 to 64
      invariant forall k :: 0 <= k < j ==> buffer[k] == linebefore[3 * (x + k) + c] == Component(rebuilt, x, c)[k]
      invariant forall k :: j <= k < 64 ==> linebefore[3 * (x + k) + c] == old64[k]
      invariant forall i :: 0 <= i < linebefore.Length && !(3 * x <= i < 3 * x + 192 && i % 3 == c) ==>
        linebefore[i] == old(linebefore[i])
    {
      assert file[at + j] == file[at..at + 64][j] == line[3 * (x + j) + c];
      assert linebefore[3 * (x + j) + c] == old64[j] == before[3 * (x + j) + c];
      assert Component(rebuilt, x, c)[j] ==
        RebuiltSample(line[3 * (x + j) + c], before[3 * (x + j) + c], linecnt % 2 == 1);
      var v := file[at + j];
      if linecnt % 2 != 0 {
        v := (v - 128) * 2 + linebefore[3 * (x + j) + c];
        v := if v < 0 then 0 else v;
        v := if v > 255 then 255 else v;
      }
      buffer[j] := v;
      linebefore[3 * (x + j) + c] := v;
    }
  }

  lemma ChunkInFile(file: seq<int>, at: nat, n: nat, x: nat)
    requires n % 192 == 0 && at + n <= |file| && x % 64 == 0 && 3 * x + 192 <= n
    ensures var line := Kept(file[at..at + n]);
      && file[at + 3 * x..at + 3 * x + 64] == Component(line, x, 0)
      && file[at + 3 * x + 64..at + 3 * x + 128] == Component(line, x, 1)
      && file[at + 3 * x + 128..at + 3 * x + 192] == Component(line, x, 2)
  {
    hide Kept, Component;
    StoredComponent(file[at..at + n], x, 0);
    SliceOfSlice(file, at, at + n, 3 * x, 3 * x + 64);
    StoredComponent(file[at..at + n], x, 1);
    SliceOfSlice(file, at, at + n, 3 * x + 64, 3 * x + 128);
    StoredComponent(file[at..at + n], x, 2);
    SliceOfSlice(file, at, at + n, 3 * x + 128, 3 * x + 192);
  }

  lemma SameComponents(a: seq<int>, b: seq<int>, x: nat)
    requires 3 * x + 192 <= |a| && 3 * x + 192 <= |b| && a[3 * x..3 * x + 192] == b[3 * x..3 * x + 192]
    ensures forall c :: 0 <= c < 3 ==> Component(a, x, c) == Component(b, x, c)
  {
    forall c, j | 0 <= c < 3 && 0 <= j < 64
      ensures Component(a, x, c)[j] == Component(b, x, c)[j]
    {
      assert a[3 * x..3 * x + 192][3 * j + c] == b[3 * x..3 * x + 192][3 * j + c];
    }
  }

  lemma OtherComponent(a: seq<int>, b: seq<int>, x: nat, c: nat, d: nat)
    requires |a| == |b| && 3 * x + 192 <= |a| && c < 3 && d < 3 && c != d
    requires forall i :: 0 <= i < |a| && !(3 * x <= i < 3 * x + 192 && i % 3 == d) ==> a[i] == b[i]
    ensures Component(a, x, c) == Component(b, x, c)
  {
  }

  /** The three components of a chunk of a line that starts at place `at` of the file. */
  method GetComponents(file: seq<int>, at: nat, x: nat, linecnt: nat, linebefore: array<int>,
                       lb: array<int>, cbb: array<int>, crb: array<int>, ghost line: seq<int>, ghost before: seq<int>)
    requires |line| % 192 == 0 && |line| <= linebefore.Length && at + |line| <= |file|
    requires x % 64 == 0 && 3 * x + 192 <= |line| == |before|
    requires line == Kept(file[at..at + |line|])
    requires forall i :: 3 * x <= i < 3 * x + 192 ==> linebefore[i] == before[i]
    requires lb.Length == cbb.Length == crb.Length == CHUNK
    requires lb != cbb && lb != crb && cbb != crb && linebefore != lb && linebefore != cbb && linebefore != crb
    modifies linebefore, lb, cbb, crb
    ensures forall i :: 3 * x <= i < 3 * x + 192 ==> linebefore[i] == RebuiltLine(line, before, linecnt % 2 == 1)[i]
    ensures forall i :: 0 <= i < |line| && !(3 * x <= i < 3 * x + 192) ==> linebefore[i] == old(linebefore[i])
    ensures lb[..] == Component(RebuiltLine(line, before, linecnt % 2 == 1), x, 0)
    ensures cbb[..] == Component(RebuiltLine(line, before, linecnt % 2 == 1), x, 1)
    ensures crb[..] == Component(RebuiltLine(line, before, linecnt % 2 == 1), x, 2)
  {
    hide RebuiltLine, Kept, Component;
    ghost var rebuilt := RebuiltLine(line, before, linecnt % 2 == 1);
    ChunkInFile(file, at, |line|, x);
    assert linebefore[3 * x..3 * x + 192] == before[3 * x..3 * x + 192];
    SameComponents(linebefore[..], before, x);
    ghost var untouched := linebefore[..];
    GetComponent(file, at + 3 * x, x, 0, linecnt, linebefore, lb, line, before);
    OtherComponent(untouched, linebefore[..], x, 1, 0);
    OtherComponent(untouched, linebefore[..], x, 2, 0);
    untouched := linebefore[..];
    GetComponent(file, at + 3 * x + 64, x, 1, linecnt, linebefore, cbb, line, before);
    OtherComponent(untouched, linebefore[..], x, 0, 1);
    OtherComponent(untouched, linebefore[..], x, 2, 1);
    untouched := linebefore[..];
    GetComponent(file, at + 3 * x + 128, x, 2, linecnt, linebefore, crb, line, before);
    OtherComponent(untouched, linebefore[..], x, 0, 2);
    OtherComponent(untouched, linebefore[..], x, 1, 2);
    SameChunk(linebefore[..], rebuilt, x);
  }

  /** The first p samples of a line are rebuilt and remembered, and their pixels converted. */
  ghost predicate RebuiltTo(band: seq<int>, linebefore: seq<int>, rebuilt: seq<int>, before: seq<int>, p: nat) {
    && p <= |band| == |rebuilt| == |before| <= |linebefore| && |rebuilt| % 3 == 0
    && (forall i :: 0 <= i < p ==> linebefore[i] == rebuilt[i])
    && (forall i :: 0 <= i < p ==> band[i] == RgbLine(rebuilt)[i])
    && (forall i :: p <= i < |band| ==> linebefore[i] == before[i])
  }

  lemma RebuiltGrows(band0: seq<int>, before0: seq<int>, band: seq<int>, linebefore: seq<int>, rebuilt: seq<int>,
                     before: seq<int>, p: nat)
    requires RebuiltTo(band0, before0, rebuilt, before, p) && p + 192 <= |band| == |band0| && |linebefore| == |before0|
    requires forall i :: p <= i < p + 192 ==> linebefore[i] == rebuilt[i]
    requires forall i :: p <= i < p + 192 ==> band[i] == RgbLine(rebuilt)[i]
    requires forall i :: 0 <= i < |band| && !(p <= i < p + 192) ==> linebefore[i] == before0[i]
    requires forall i :: 0 <= i < p || p + 192 <= i < |band| ==> band[i] == band0[i]
    ensures RebuiltTo(band, linebefore, rebuilt, before, p + 192)
  {
    hide RgbLine;
  }

  /** A chunk: its components, and their pixels converted for the picture. */
  method GetChunk(file: seq<int>, at: nat, x: nat, linecnt: nat, linebefore: array<int>, band: array<int>,
                  lb: array<int>, cbb: array<int>, crb: array<int>, ghost line: seq<int>, ghost before: seq<int>)
    requires band.Length % 192 == 0 && band.Length <= linebefore.Length && at + band.Length <= |file|
      && band != linebefore
    requires x % 64 == 0 && 3 * x + 192 <= band.Length == |line| == |before|
    requires line == Kept(file[at..at + band.Length])
    requires RebuiltTo(band[..], linebefore[..], RebuiltLine(line, before, linecnt % 2 == 1), before, 3 * x)
    requires lb.Length == cbb.Length == crb.Length == CHUNK
    requires lb != cbb && lb != crb && cbb != crb
    requires linebefore != lb && linebefore != cbb && linebefore != crb && band != lb && band != cbb && band != crb
    modifies linebefore, band, lb, cbb, crb
    ensures RebuiltTo(band[..], linebefore[..], RebuiltLine(line, before, linecnt % 2 == 1), before, 3 * x + 192)
  {
    hide RebuiltLine, Kept, Component, RgbLine, ToRgb;
    ghost var rebuilt, band0, before0 := RebuiltLine(line, before, linecnt % 2 == 1), band[..], linebefore[..];
    GetComponents(file, at, x, linecnt, linebefore, lb, cbb, crb, line, before);
    Spread(lb, cbb, crb, band, x);
    ConvertedChunk(band[..], rebuilt, x, lb[..], cbb[..], crb[..]);
    RebuiltGrows(band0, before0, band[..], linebefore[..], rebuilt, before, 3 * x);
  }

  lemma RebuiltNothing(band: seq<int>, linebefore: seq<int>, rebuilt: seq<int>, before: seq<int>)
    requires |band| == |rebuilt| == |before| <= |linebefore| && |rebuilt| % 3 == 0 && before == linebefore[..|band|]
    ensures RebuiltTo(band, linebefore, rebuilt, before, 0)
  {
  }

  lemma RebuiltAll(band: seq<int>, linebefore: seq<int>, rebuilt: seq<int>, before: seq<int>)
    requires RebuiltTo(band, linebefore, rebuilt, before, |band|)
    ensures |band| <= |linebefore| && linebefore[..|band|] == rebuilt && |rebuilt| % 3 == 0 && band == RgbLine(rebuilt)
  {
  }

  method GetChunks(file: seq<int>, at: nat, linecnt: nat, linebefore: array<int>, band: array<int>,
                   ghost line: seq<int>, ghost before: seq<int>)
    requires band.Length % 192 == 0 && band.Length <= linebefore.Length && at + band.Length <= |file|
      && band != linebefore
    requires band.Length == |line| == |before| && line == Kept(file[at..at + band.Length])
    requires RebuiltTo(band[..], linebefore[..], RebuiltLine(line, before, linecnt % 2 == 1), before, 0)
    modifies linebefore, band
    ensures RebuiltTo(band[..], linebefore[..], RebuiltLine(line, before, linecnt % 2 == 1), before, band.Length)
  {
    hide *;
    ghost var rebuilt := RebuiltLine(line, before, linecnt % 2 == 1);
    var lb, cbb, crb := new int[CHUNK], new int[CHUNK], new int[CHUNK];
    var x := 0;
    while 3 * x < band.Length
      invariant x % 64 == 0 && 3 * x <= band.Length && RebuiltTo(band[..], linebefore[..], rebuilt, before, 3 * x)
    {
      ChunkFits(band.Length, x);
      GetChunk(file, at, x, linecnt, linebefore, band, lb, cbb, crb, line, before);
      x := x + 64;
    }
  }

  /** A line, chunk by chunk, from place `at` of the file. */
  method GetLine(file: seq<int>, at: nat, linecnt: nat, linebefore: array<int>, band: array<int>)
    requires band.Length % 192 == 0 && band.Length <= linebefore.Length && at + band.Length <= |file|
      && band != linebefore
    modifies linebefore, band
    ensures linebefore[..band.Length] ==
      RebuiltLine(Kept(file[at..at + band.Length]), old(linebefore[..band.Length]), linecnt % 2 == 1)
    ensures band[..] == RgbLine(linebefore[..band.Length])
  {
    hide RebuiltLine, Kept, RgbLine, RebuiltTo;
    ghost var line, before := Kept(file[at..at + band.Length]), linebefore[..band.Length];
    RebuiltNothing(band[..], linebefore[..], RebuiltLine(line, before, linecnt % 2 == 1), before);
    GetChunks(file, at, linecnt, linebefore, band, line, before);
    RebuiltAll(band[..], linebefore[..], RebuiltLine(line, before, linecnt % 2 == 1), before);
  }

  lemma PictureAt(file: seq<int>, n: nat, h: nat, y: nat)
    requires y < h && n % 192 == 0 && |file| == h * n
    ensures n % 3 == 0 && Picture(file, n, h)[y] == RgbLine(Rebuilt(file, n, h, y))
  {
    hide Rebuilt, RgbLine;
  }

  lemma RebuiltStep(file: seq<int>, n: nat, h: nat, y: nat)
    requires y < h && n % 192 == 0 && |file| == h * n
    ensures y * n + n <= h * n
    ensures Rebuilt(file, n, h, y) ==
      RebuiltLine(Kept(file[y * n..y * n + n]), if y == 0 then Zeros(n) else Rebuilt(file, n, h, y - 1), y % 2 == 1)
    ensures n % 3 == 0 && Picture(file, n, h)[y] == RgbLine(Rebuilt(file, n, h, y))
  {
    hide Kept, RebuiltLine, RgbLine;
    LineBounds(y, h, n);
    PictureAt(file, n, h, y);
    hide Picture;
  }

  /** The whole builder, with the conversion back to red, green and blue. */
  method Build(file: seq<int>, linesize: nat, ysize: nat) returns (image: seq<seq<int>>)
    requires linesize % 192 == 0 && linesize <= 5760 && |file| == ysize * linesize
    ensures image == Picture(file, linesize, ysize)
  {
    hide RebuiltLine, Kept, Rebuilt, RgbLine, Picture, PictureLine, StoredLine, Bytes;
    ghost var picture := Picture(file, linesize, ysize);
    var linebefore := new int[5760](_ => 0);
    var band := new int[linesize];
    image := [];
    for y := 0 to ysize
      invariant image == picture[..y]
      invariant linebefore[..linesize] == if y == 0 then Zeros(linesize) else Rebuilt(file, linesize, ysize, y - 1)
    {
      LineBounds(y, ysize, linesize);
      GetLine(file, y * linesize, y, linebefore, band);
      RebuiltStep(file, linesize, ysize, y);
      image := image + [band[..]];
    }
  }

  // ---- what survives

  /** The file holds the image's lines, coded and in storage order. */
  ghost predicate IsFile(file: seq<int>, image: seq<seq<int>>, n: nat) {
    && IsImage(image, n) && |file| == |image| * n
    && forall y :: 0 <= y < |image| ==> StoredLine(file, n, y, |image|) == Stored(Code(image, n, y))
  }

  lemma ExtractedFile(image: seq<seq<int>>, n: nat)
    requires IsImage(image, n)
    ensures IsFile(Concat(CodedLines(image, n)), image, n)
  {
    hide Concat, StoredLine, Stored, CodedLine, LineBefore;
    ConcatLength(CodedLines(image, n), n);
    forall y | 0 <= y < |image|
      ensures StoredLine(Concat(CodedLines(image, n)), n, y, |image|) == Stored(Code(image, n, y))
    {
      ConcatLine(CodedLines(image, n), n, y);
    }
  }

  /** In stored line y, no value is further than bound from what the extractor wrote. */
  ghost predicate Near(stream: seq<int>, file: seq<int>, n: nat, y: nat, h: nat, bound: nat)
    requires y < h && |stream| == |file| == h * n
  {
    forall p :: 0 <= p < n ==> 0 - bound <= StoredLine(stream, n, y, h)[p] - StoredLine(file, n, y, h)[p] <= bound
  }

  /** The value that line y is rebuilt from, against the one it was coded as. */
  lemma Received(image: seq<seq<int>>, n: nat, file: seq<int>, stream: seq<int>, y: nat, i: nat, bound: nat)
    requires IsFile(file, image, n) && |stream| == |file| && y < |image| && i < n
    requires Near(stream, file, n, y, |image|, bound)
    ensures -(bound as int) <= Kept(StoredLine(stream, n, y, |image|))[i] - Code(image, n, y)[i] <= bound
  {
    hide StoredLine, Source, Target, Code, Stored;
    KeptStored(Code(image, n, y));
    assert Kept(Stored(Code(image, n, y)))[i] == Code(image, n, y)[i];
    SourceTarget(i, n);
  }

  /** A builder's line in terms of what it was read from. */
  lemma RebuiltFrom(stream: seq<int>, n: nat, h: nat, y: nat, i: nat)
    requires y < h && n % 192 == 0 && |stream| == h * n && i < n
    ensures y % 2 == 0 ==> Rebuilt(stream, n, h, y)[i] == Kept(StoredLine(stream, n, y, h))[i]
    ensures y % 2 == 1 ==>
      Rebuilt(stream, n, h, y)[i] ==
      RebuiltSample(Kept(StoredLine(stream, n, y, h))[i], Kept(StoredLine(stream, n, y - 1, h))[i], true)
  {
    hide Kept, StoredLine;
  }

  lemma OddError(v: int, before: int, d: int, received: int, a: nat, b: nat)
    requires 0 <= v < 256 && -(a as int) <= received - before <= a
    requires -(b as int) <= d - CodedSample(v, before, true) <= b
    ensures -((a + 2 * b + 1) as int) <= RebuiltSample(d, received, true) - v <= a + 2 * b
  {
  }

  lemma CodeAt(image: seq<seq<int>>, n: nat, y: nat, i: nat)
    requires IsImage(image, n) && y < |image| && i < n
    ensures |image[y]| == n && Code(image, n, y)[i] == CodedSample(image[y][i], LineBefore(image, n, y)[i], y % 2 == 1)
    ensures y % 2 == 0 ==> Code(image, n, y)[i] == image[y][i]
  {
  }

  lemma FileShape(file: seq<int>, image: seq<seq<int>>, n: nat)
    requires IsFile(file, image, n)
    ensures n % 192 == 0 && n <= 5760 && |file| == |image| * n && IsImage(image, n)
  {
  }

  lemma EvenLineNear(image: seq<seq<int>>, n: nat, file: seq<int>, stream: seq<int>, a: nat, y: nat, i: nat)
    requires IsFile(file, image, n) && |stream| == |file| && y < |image| && i < n
    requires y % 2 == 0 && Near(stream, file, n, y, |image|, a)
    ensures n % 192 == 0 && |stream| == |image| * n && |image[y]| == n
    ensures -(a as int) <= Rebuilt(stream, n, |image|, y)[i] - image[y][i] <= a
  {
    hide Kept, Near, StoredLine, Rebuilt, Code, CodedSample, RebuiltSample, LineBefore, IsFile;
    FileShape(file, image, n);
    RebuiltFrom(stream, n, |image|, y, i);
    CodeAt(image, n, y, i);
    Received(image, n, file, stream, y, i, a);
  }

  lemma BeforeOdd(image: seq<seq<int>>, n: nat, y: nat, i: nat)
    requires IsImage(image, n) && y < |image| && y % 2 == 1 && i < n
    ensures |image[y]| == |image[y - 1]| == n && LineBefore(image, n, y)[i] == image[y - 1][i]
    ensures 0 <= image[y][i] < 256 && 0 <= image[y - 1][i] < 256
  {
    assert Bytes(image[y]) && Bytes(image[y - 1]);
  }

  lemma OddLineNear(image: seq<seq<int>>, n: nat, file: seq<int>, stream: seq<int>, a: nat, b: nat, y: nat, i: nat)
    requires IsFile(file, image, n) && |stream| == |file| && y < |image| && i < n && y % 2 == 1
    requires Near(stream, file, n, y - 1, |image|, a) && Near(stream, file, n, y, |image|, b)
    ensures n % 192 == 0 && |stream| == |image| * n && |image[y]| == n
    ensures -((a + 2 * b + 1) as int) <= Rebuilt(stream, n, |image|, y)[i] - image[y][i] <= a + 2 * b
  {
    hide *;
    FileShape(file, image, n);
    RebuiltFrom(stream, n, |image|, y, i);
    CodeAt(image, n, y, i);
    CodeAt(image, n, y - 1, i);
    Received(image, n, file, stream, y - 1, i, a);
    Received(image, n, file, stream, y, i, b);
    BeforeOdd(image, n, y, i);
    OddError(image[y][i], image[y - 1][i], Kept(StoredLine(stream, n, y, |image|))[i],
             Kept(StoredLine(stream, n, y - 1, |image|))[i], a, b);
  }

  /** Errors do not drift. Whatever happens to the rest of the file, an even line is off by no
      more than its own values are, and an odd line depends on its own values and those of the
      line before it only: if these are off by at most b and a, it is off by at most a + 2b,
      or one more on the dark side. */
  lemma NoDrift(image: seq<seq<int>>, n: nat, file: seq<int>, stream: seq<int>, a: nat, b: nat, y: nat, i: nat)
    requires IsFile(file, image, n) && |stream| == |file| && y < |image| && i < n
    requires y % 2 == 0 ==> Near(stream, file, n, y, |image|, a)
    requires y % 2 == 1 ==> Near(stream, file, n, y - 1, |image|, a) && Near(stream, file, n, y, |image|, b)
    ensures y % 2 == 0 ==> -(a as int) <= Rebuilt(stream, n, |image|, y)[i] - image[y][i] <= a
    ensures y % 2 == 1 ==> -((a + 2 * b + 1) as int) <= Rebuilt(stream, n, |image|, y)[i] - image[y][i] <= a + 2 * b
  {
    hide *;
    if y % 2 == 0 {
      EvenLineNear(image, n, file, stream, a, y, i);
    } else {
      OddLineNear(image, n, file, stream, a, b, y, i);
    }
  }

  lemma ReceivedAsCoded(image: seq<seq<int>>, n: nat, file: seq<int>, y: nat, i: nat)
    requires IsFile(file, image, n) && y < |image| && i < n
    ensures n % 192 == 0 && |file| == |image| * n && Kept(StoredLine(file, n, y, |image|))[i] == Code(image, n, y)[i]
  {
    hide Kept, StoredLine, Code, Source, Target, Stored;
    Received(image, n, file, file, y, i, 0);
  }

  lemma LowBit(v: int, before: int)
    requires 0 <= v < 256 && 0 <= before < 256
    ensures RebuiltSample(CodedSample(v, before, true), before, true) ==
      if (v - before) % 2 == 1 && v > 0 then v - 1 else v
  {
  }

  /** With nothing lost on the way, even lines come back exactly, and an odd line loses the
      lowest bit of an odd difference, unless the sample is zero already. */
  lemma LosesLowBitOfOddDifferences(image: seq<seq<int>>, n: nat, file: seq<int>, y: nat, i: nat)
    requires IsFile(file, image, n) && y < |image| && i < n
    ensures Rebuilt(file, n, |image|, y)[i] ==
      if y % 2 == 1 && (image[y][i] - LineBefore(image, n, y)[i]) % 2 == 1 && image[y][i] > 0 then image[y][i] - 1
      else image[y][i]
  {
    hide Kept, StoredLine, Rebuilt, Code, CodedSample, RebuiltSample, LineBefore, IsFile;
    FileShape(file, image, n);
    RebuiltFrom(file, n, |image|, y, i);
    ReceivedAsCoded(image, n, file, y, i);
    CodeAt(image, n, y, i);
    if y % 2 == 1 {
      ReceivedAsCoded(image, n, file, y - 1, i);
      CodeAt(image, n, y - 1, i);
      BeforeOdd(image, n, y, i);
      LowBit(image[y][i], image[y - 1][i]);
    }
  }

  lemma RestoredPixel(rgb: seq<seq<int>>, n: nat, file: seq<int>, y: nat, x: nat)
    requires IsImage(rgb, n) && IsFile(file, YccImage(rgb, n), n) && y < |rgb| && x < n / 3
    ensures n % 192 == 0 && |file| == |rgb| * n && |rgb[y]| == n
    ensures PixelKept(RgbAt(rgb[y], x), RgbAt(RgbLine(Rebuilt(file, n, |rgb|, y)), x), y % 2)
  {
    hide Rebuilt, RgbLine, YccLine, YccImage, IsFile, IsImage, LineBefore, ToYcc, ToRgb;
    var image := YccImage(rgb, n);
    ImageLine(rgb, n, y);
    FileShape(file, image, n);
    var line := Rebuilt(file, n, |rgb|, y);
    forall i | 0 <= i < n
      ensures 0 <= YccLine(rgb[y])[i] - line[i] <= y % 2
    {
      LosesLowBitOfOddDifferences(image, n, file, y, i);
    }
    LineThereAndBack(rgb[y], line, y % 2, x);
  }

  /** From picture to picture: no sample of an even line is further than 2 below or 1 above what
      it was, and greys of even lines come back exactly; in odd lines it is 5 and 2. */
  method ThereAndBack(rgb: seq<seq<int>>, linesize: nat) returns (restored: seq<seq<int>>)
    requires IsImage(rgb, linesize)
    ensures |restored| == |rgb|
    ensures forall y, x :: 0 <= y < |rgb| && 0 <= x < linesize / 3 ==>
      |restored[y]| == linesize && PixelKept(RgbAt(rgb[y], x), RgbAt(restored[y], x), y % 2)
  {
    hide RgbLine, Rebuilt, PixelKept, IsFile;
    var file := Extract(rgb, linesize);
    ghost var image := YccImage(rgb, linesize);
    ExtractedFile(image, linesize);
    FileShape(file, image, linesize);
    restored := Build(file, linesize, |rgb|);
    forall y, x | 0 <= y < |rgb| && 0 <= x < linesize / 3
      ensures |restored[y]| == linesize && PixelKept(RgbAt(rgb[y], x), RgbAt(restored[y], x), y % 2)
    {
      RestoredPixel(rgb, linesize, file, y, x);
    }
  }
}
