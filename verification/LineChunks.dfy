/** The order in which the line formats store a line: chunks of 64 pixels, and within a chunk 64
    values of each of the three components. In memory a line is kept pixel by pixel. */
module LineChunks {
  import opened Words
  import opened ColourConversion

  const CHUNK: nat := 64

  /** Where the value stored at place p of a line is kept in memory. */
  function Source(p: nat): nat {
    3 * (p / 192 * 64 + p % 64) + p % 192 / 64
  }

  /** Where the value kept at index i is stored. */
  function Target(i: nat): nat {
    i / 3 / 64 * 192 + i % 3 * 64 + i / 3 % 64
  }

  lemma PlaceParts(k: nat, c: nat, j: nat)
    requires c < 3 && j < 64
    ensures var p := 192 * k + 64 * c + j; p / 192 == k && p % 64 == j && p % 192 / 64 == c
    ensures var i := 3 * (64 * k + j) + c; i % 3 == c && i / 3 / 64 == k && i / 3 % 64 == j
  {
  }

  /** Place j of component c in the chunk that starts at pixel x. */
  lemma ChunkPlace(x: nat, c: nat, j: nat)
    requires x % 64 == 0 && c < 3 && j < 64
    ensures Source(3 * x + 64 * c + j) == 3 * (x + j) + c
    ensures Target(3 * (x + j) + c) == 3 * x + 64 * c + j
  {
    var k := x / 64;
    assert x == 64 * k;
    PlaceParts(k, c, j);
  }

  lemma PartsAddUp(p: nat)
    ensures p == 192 * (p / 192) + 64 * (p % 192 / 64) + p % 64
  {
    var k, r := p / 192, p % 192;
    DivUnique(p, 64, 3 * k + r / 64, r % 64);
  }

  lemma Thirds(i: nat)
    ensures i == 3 * (64 * (i / 3 / 64) + i / 3 % 64) + i % 3 && i / 3 / 64 == i / 192
  {
  }

  lemma WholeChunks(k: nat, m: nat)
    ensures k < m ==> 192 * k + 192 <= 192 * m
  {
  }

  lemma ChunkBelow(p: nat, n: nat)
    requires n % 192 == 0 && p < n
    ensures 192 * (p / 192) + 192 <= n
  {
    WholeChunks(p / 192, n / 192);
  }

  lemma StoredParts(p: nat, n: nat) returns (k: nat, c: nat, j: nat)
    requires n % 192 == 0 && p < n
    ensures p == 192 * k + 64 * c + j && c < 3 && j < 64 && 192 * k + 192 <= n
  {
    k, c, j := p / 192, p % 192 / 64, p % 64;
    PartsAddUp(p);
    ChunkBelow(p, n);
  }

  lemma KeptParts(i: nat, n: nat) returns (k: nat, c: nat, j: nat)
    requires n % 192 == 0 && i < n
    ensures i == 3 * (64 * k + j) + c && c < 3 && j < 64 && 192 * k + 192 <= n
  {
    k, c, j := i / 3 / 64, i % 3, i / 3 % 64;
    ChunkBelow(i, n);
    Thirds(i);
  }

  lemma StoredThere(p: nat, n: nat)
    requires n % 192 == 0 && p < n
    ensures Source(p) < n && Target(Source(p)) == p
  {
    hide Source, Target;
    var k, c, j := StoredParts(p, n);
    ChunkPlace(64 * k, c, j);
  }

  lemma KeptThere(i: nat, n: nat)
    requires n % 192 == 0 && i < n
    ensures Target(i) < n && Source(Target(i)) == i
  {
    hide Source, Target;
    var k, c, j := KeptParts(i, n);
    ChunkPlace(64 * k, c, j);
  }

  /** The two orders are permutations of each other, within every line of whole chunks. */
  lemma SourceTarget(p: nat, n: nat)
    requires n % 192 == 0 && p < n
    ensures Source(p) < n && Target(Source(p)) == p
    ensures Target(p) < n && Source(Target(p)) == p
  {
    hide *;
    StoredThere(p, n);
    KeptThere(p, n);
  }

  function Stored(band: seq<int>): (s: seq<int>)
    requires |band| % 192 == 0
    ensures |s| == |band|
  {
    seq(|band|, p requires 0 <= p < |band| => (SourceTarget(p, |band|); band[Source(p)]))
  }

  function Kept(s: seq<int>): (band: seq<int>)
    requires |s| % 192 == 0
    ensures |band| == |s|
  {
    seq(|s|, i requires 0 <= i < |s| => (SourceTarget(i, |s|); s[Target(i)]))
  }

  lemma KeptStored(band: seq<int>)
    requires |band| % 192 == 0
    ensures Kept(Stored(band)) == band
  {
    hide Source, Target;
    forall i | 0 <= i < |band|
      ensures Kept(Stored(band))[i] == band[i]
    {
      SourceTarget(i, |band|);
    }
  }

  lemma ChunkFits(n: nat, x: nat)
    requires n % 192 == 0 && x % 64 == 0 && 3 * x < n
    ensures 3 * x + 192 <= n
  {
    WholeChunks(x / 64, n / 192);
  }

  /** Component c of the chunk at pixel x. */
  function Component(band: seq<int>, x: nat, c: nat): (s: seq<int>)
    requires c < 3 && 3 * x + 192 <= |band|
    ensures |s| == 64 && forall j :: 0 <= j < 64 ==> s[j] == band[3 * (x + j) + c]
  {
    seq(64, j requires 0 <= j < 64 => band[3 * (x + j) + c])
  }

  lemma StoredComponent(s: seq<int>, x: nat, c: nat)
    requires |s| % 192 == 0 && x % 64 == 0 && 3 * x + 192 <= |s| && c < 3
    ensures Stored(s)[3 * x + 64 * c..3 * x + 64 * c + 64] == Component(s, x, c)
    ensures Component(Kept(s), x, c) == s[3 * x + 64 * c..3 * x + 64 * c + 64]
  {
    hide Source, Target;
    forall j | 0 <= j < 64
      ensures Stored(s)[3 * x + 64 * c + j] == Component(s, x, c)[j]
      ensures Component(Kept(s), x, c)[j] == s[3 * x + 64 * c + j]
    {
      ChunkPlace(x, c, j);
    }
  }

  /** A chunk is its three components. */
  lemma SameChunk(a: seq<int>, b: seq<int>, x: nat)
    requires 3 * x + 192 <= |a| && 3 * x + 192 <= |b|
    requires forall c :: 0 <= c < 3 ==> Component(a, x, c) == Component(b, x, c)
    ensures forall i :: 3 * x <= i < 3 * x + 192 ==> a[i] == b[i]
  {
    hide Component;
    forall i | 3 * x <= i < 3 * x + 192
      ensures a[i] == b[i]
    {
      var j, c := (i - 3 * x) / 3, i % 3;
      assert i == 3 * (x + j) + c;
      assert Component(a, x, c)[j] == Component(b, x, c)[j];
    }
  }

  // ---- lines one after the other

  function Concat(lines: seq<seq<int>>): seq<int> {
    if lines == [] then [] else Concat(lines[..|lines| - 1]) + lines[|lines| - 1]
  }

  lemma ConcatEmpty(lines: seq<seq<int>>)
    requires lines == []
    ensures Concat(lines) == []
  {
  }

  ghost predicate AllOfLength(lines: seq<seq<int>>, n: nat) {
    forall y :: 0 <= y < |lines| ==> |lines[y]| == n
  }

  lemma OneMore(y: nat, n: nat)
    ensures (y + 1) * n == y * n + n
  {
  }

  lemma {:induction false} ConcatLength(lines: seq<seq<int>>, n: nat)
    requires AllOfLength(lines, n)
    ensures |Concat(lines)| == |lines| * n
  {
    if lines == [] {
    } else {
      ConcatLength(lines[..|lines| - 1], n);
      OneMore(|lines| - 1, n);
    }
  }

  lemma LineBounds(y: nat, h: nat, n: nat)
    requires y < h
    ensures y * n + n <= h * n
  {
    MulMonotonic(n, y + 1, h);
  }

  /** The y-th stretch of a stream of h lines. */
  function StoredLine(stream: seq<int>, n: nat, y: nat, h: nat): (line: seq<int>)
    requires y < h && |stream| == h * n
    ensures |line| == n
  {
    LineBounds(y, h, n);
    stream[y * n..y * n + n]
  }

  lemma SliceOfPrefix(a: seq<int>, b: seq<int>, lo: nat, hi: nat)
    requires lo <= hi <= |a|
    ensures (a + b)[lo..hi] == a[lo..hi]
  {
  }

  lemma {:induction false} ConcatLine(lines: seq<seq<int>>, n: nat, y: nat)
    requires AllOfLength(lines, n) && y < |lines|
    ensures |Concat(lines)| == |lines| * n && StoredLine(Concat(lines), n, y, |lines|) == lines[y]
  {
    ConcatLength(lines, n);
    var front := lines[..|lines| - 1];
    ConcatLength(front, n);
    if y < |front| {
      ConcatLine(front, n, y);
      LineBounds(y, |front|, n);
      SliceOfPrefix(Concat(front), lines[|lines| - 1], y * n, y * n + n);
    } else {
      assert |Concat(front)| == y * n;
    }
  }

  lemma ConcatStep(lines: seq<seq<int>>, y: nat)
    requires y < |lines|
    ensures Concat(lines[..y + 1]) == Concat(lines[..y]) + lines[y]
  {
    assert lines[..y + 1][..y] == lines[..y];
  }

  // ---- images

  predicate Bytes(s: seq<int>) {
    forall i :: 0 <= i < |s| ==> 0 <= s[i] < 256
  }

  /** Lines of n samples, three to a pixel. */
  ghost predicate IsImage(image: seq<seq<int>>, n: nat) {
    n % 192 == 0 && n <= 5760 && AllOfLength(image, n) && forall y :: 0 <= y < |image| ==> Bytes(image[y])
  }

  function Zeros(n: nat): (s: seq<int>)
    ensures |s| == n && Bytes(s)
  {
    seq(n, _ => 0)
  }

  /** The line that line y is compared with; before the first there is a line of zeros. */
  ghost function LineBefore(image: seq<seq<int>>, n: nat, y: nat): (s: seq<int>)
    requires IsImage(image, n) && y <= |image|
    ensures |s| == n && Bytes(s)
  {
    if y == 0 then Zeros(n) else image[y - 1]
  }

  lemma ImageShape(image: seq<seq<int>>, n: nat)
    requires IsImage(image, n)
    ensures n % 192 == 0 && n <= 5760
  {
  }

  lemma StartsDark(linebefore: array<int>, image: seq<seq<int>>, n: nat)
    requires IsImage(image, n) && n <= linebefore.Length && forall i :: 0 <= i < n ==> linebefore[i] == 0
    ensures linebefore[..n] == LineBefore(image, n, 0)
  {
  }

  lemma ImageLine(image: seq<seq<int>>, n: nat, y: nat)
    requires IsImage(image, n) && y < |image|
    ensures |image[y]| == n && n % 192 == 0 && n % 3 == 0 && Bytes(image[y])
  {
  }

  lemma YccBytes(rgb: seq<int>)
    requires |rgb| % 3 == 0
    ensures Bytes(YccLine(rgb))
  {
    hide YccLine;
  }

  /** The lines as the programs convert them. */
  ghost function YccImage(rgb: seq<seq<int>>, n: nat): (image: seq<seq<int>>)
    requires IsImage(rgb, n)
    ensures |image| == |rgb| && IsImage(image, n)
    ensures forall y :: 0 <= y < |rgb| ==> |rgb[y]| % 3 == 0 && image[y] == YccLine(rgb[y])
  {
    hide YccLine;
    assert n % 3 == 0;
    assert forall y :: 0 <= y < |rgb| ==> |rgb[y]| % 3 == 0 && Bytes(YccLine(rgb[y]));
    hide Bytes;
    seq(|rgb|, y requires 0 <= y < |rgb| => YccLine(rgb[y]))
  }

  // ---- slices

  lemma PrefixGrows(a: seq<int>, s: seq<int>, p: nat, q: nat)
    requires p <= q <= |s|
    ensures a + s[..p] + s[p..q] == a + s[..q]
  {
    assert s[..q] == s[..p] + s[p..q];
  }

  lemma SliceOfSlice(s: seq<int>, lo: nat, hi: nat, a: nat, b: nat)
    requires lo <= hi <= |s| && a <= b <= hi - lo
    ensures s[lo..hi][a..b] == s[lo + a..lo + b]
  {
    forall k | 0 <= k < b - a
      ensures s[lo..hi][a..b][k] == s[lo + a..lo + b][k]
    {
      assert s[lo..hi][a..b][k] == s[lo..hi][a + k];
    }
  }

  lemma ThreeSlices(a: seq<int>, s: seq<int>, p: nat, q: nat, r: nat, t: nat)
    requires p <= q <= r <= t <= |s|
    ensures a + s[p..q] + s[q..r] + s[r..t] == a + s[p..t]
  {
    assert s[p..t] == s[p..q] + s[q..r] + s[r..t];
  }

  // ---- the loops the programs share

  /** Copy the 64 pixels from x on into one buffer per component. */
  method Grab(band: array<int>, x: nat, lb: array<int>, cbb: array<int>, crb: array<int>)
    requires lb.Length == cbb.Length == crb.Length == CHUNK && 3 * x + 192 <= band.Length
    requires lb != cbb && lb != crb && cbb != crb && band != lb && band != cbb && band != crb
    modifies lb, cbb, crb
    ensures lb[..] == Component(band[..], x, 0)
    ensures cbb[..] == Component(band[..], x, 1)
    ensures crb[..] == Component(band[..], x, 2)
  {
    var wp := 3 * x;
    for j := 0 to CHUNK
      invariant wp == 3 * (x + j)
      invariant forall k :: 0 <= k < j ==> lb[k] == band[3 * (x + k)]
      invariant forall k :: 0 <= k < j ==> cbb[k] == band[3 * (x + k) + 1]
      invariant forall k :: 0 <= k < j ==> crb[k] == band[3 * (x + k) + 2]
    {
      lb[j] := band[wp];
      cbb[j] := band[wp + 1];
      crb[j] := band[wp + 2];
      wp := wp + 3;
    }
  }

  /** The converse: convert the 64 pixels of three component buffers and put them into the
      picture line from pixel x on. */
  method Spread(lb: array<int>, cbb: array<int>, crb: array<int>, band: array<int>, x: nat)
    requires lb.Length == cbb.Length == crb.Length == CHUNK && 3 * x + 192 <= band.Length
    requires band != lb && band != cbb && band != crb
    modifies band
    ensures forall k :: 0 <= k < CHUNK ==> RgbAt(band[..], x + k) == ToRgb(Ycc(lb[k], cbb[k], crb[k]))
    ensures forall i :: 0 <= i < 3 * x || 3 * x + 192 <= i < band.Length ==> band[i] == old(band[i])
  {
    hide ToRgb;
    var wp := 3 * x;
    for j := 0 to CHUNK
      invariant wp == 3 * (x + j)
      invariant forall k :: 0 <= k < j ==> RgbAt(band[..], x + k) == ToRgb(Ycc(lb[k], cbb[k], crb[k]))
      invariant forall i :: 0 <= i < 3 * x || wp <= i < band.Length ==> band[i] == old(band[i])
    {
      var p := ToRgb(Ycc(lb[j], cbb[j], crb[j]));
      band[wp] := p.r;
      band[wp + 1] := p.g;
      band[wp + 2] := p.b;
      wp := wp + 3;
    }
  }

  lemma SamePixel(a: seq<int>, b: seq<int>, i: nat)
    requires i < |a| == |b| && |a| % 3 == 0 && RgbAt(a, i / 3) == RgbAt(b, i / 3)
    ensures a[i] == b[i]
  {
    assert i == 3 * (i / 3) + i % 3;
  }

  /** A chunk whose components are those of a line is that part of the line, converted. */
  lemma ConvertedChunk(rgb: seq<int>, line: seq<int>, x: nat, lb: seq<int>, cbb: seq<int>, crb: seq<int>)
    requires |rgb| == |line| && |line| % 3 == 0 && 3 * x + 192 <= |line| && |lb| == |cbb| == |crb| == CHUNK
    requires lb == Component(line, x, 0) && cbb == Component(line, x, 1) && crb == Component(line, x, 2)
    requires forall k :: 0 <= k < CHUNK ==> RgbAt(rgb, x + k) == ToRgb(Ycc(lb[k], cbb[k], crb[k]))
    ensures forall i :: 3 * x <= i < 3 * x + 192 ==> rgb[i] == RgbLine(line)[i]
  {
    hide ToRgb, RgbLine;
    forall i | 3 * x <= i < 3 * x + 192
      ensures rgb[i] == RgbLine(line)[i]
    {
      var k := i / 3 - x;
      assert YccAt(line, x + k) == Ycc(lb[k], cbb[k], crb[k]);
      hide Component;
      PixelOfLine(line, x + k);
      SamePixel(rgb, RgbLine(line), i);
    }
  }
}
