/** Decoded tiles laid out as an image: padding the size to whole tiles, and the walk of a
    pointer through a band of image lines. */
module TilePlacement {
  import opened Words
  import opened ColourConversion
  import opened LineChunks

  // ---- sizes

  /** Width and height of a tile in each of the five formats. */
  function TileSize(format: nat): (int, int)
    requires 1 <= format <= 5
  {
    if format == 1 || format == 3 then (16, 16)
    else if format == 2 then (8, 8)
    else if format == 4 then (16, 8)
    else (8, 16)
  }

  lemma WholeEights(size: nat, temp: nat)
    requires temp == if size % 8 != 0 then 8 - size % 8 else 0
    ensures (size + temp) % 8 == 0 && temp < 8
  {
  }

  /** Where whole eights are not whole sixteens, one eight is missing, which is also what is over. */
  lemma AnotherEight(n: nat)
    requires n % 8 == 0
    ensures n % 16 == 0 || (n % 16 == 8 && (n + 8) % 16 == 0)
  {
  }

  /** How many columns or lines are missing to whole tiles. */
  method Padding(size: nat, side: nat) returns (temp: nat)
    requires side == 8 || side == 16
    ensures temp < side && (size + temp) % side == 0
  {
    if size % 8 != 0 {
      temp := 8 - size % 8;
    } else {
      temp := 0;
    }
    WholeEights(size, temp);
    if (size + temp) % side != 0 {
      AnotherEight(size + temp);
      temp := temp + (size + temp) % side;
    }
  }

  /** There is no smaller padding. */
  lemma LeastPadding(size: nat, side: nat, temp: nat, other: nat)
    requires 0 < side && temp < side && (size + temp) % side == 0 && (size + other) % side == 0
    ensures temp <= other
  {
    var a, b := (size + temp) / side, (size + other) / side;
    MulMonotonic(side, b + 1, if a > b then a else b + 1);
    MulMonotonic(side, a, if a > b then a else b);
  }

  lemma MultiplesApart(a: int, b: int, side: nat)
    requires side > 0 && a % side == 0 && b % side == 0 && a < b
    ensures a + side <= b
  {
    QuotientBound(a, side, b / side);
    MulMonotonic(side, a / side + 1, b / side);
  }

  /** Of the tile that starts at x, as many columns (or lines) lie inside the image as the
      programs' comparisons with the padding say. */
  lemma InsideTile(size: nat, side: nat, temp: nat, x: nat, j: nat)
    requires (side == 8 || side == 16) && temp < side && (size + temp) % side == 0
    requires x % side == 0 && x < size && j < side
    ensures x + j < size <==> j < if x == size + temp - side then side - temp else side
  {
    MultiplesApart(x, size + temp, side);
    if x < size + temp - side {
      MultiplesApart(x, size + temp - side, side);
    }
  }

  // ---- one tile

  /** The component buffers of a tile: 16 samples to a row, whatever the tile's width. */
  type Tile = t: seq<Ycc> | |t| == 256 witness seq(256, _ => Ycc(0, 0, 0))

  function Channel(p: Rgb, k: nat): int {
    if k == 0 then p.r else if k == 1 then p.g else p.b
  }

  /** The bytes of w pixels from entry c0 of a tile on. */
  function Flat(tile: Tile, c0: nat, w: nat): (s: seq<int>)
    requires c0 + w <= 256
    ensures |s| == 3 * w
  {
    seq(3 * w, p requires 0 <= p < 3 * w => Channel(ToRgb(tile[c0 + p / 3]), p % 3))
  }

  /** The size of an image and of its tiles, with the padding. */
  datatype Extent = Extent(xsize: nat, ysize: nat, Hk: nat, Vk: nat, temp1: nat, temp3: nat) {
    predicate Valid() {
      && xsize > 0 && ysize > 0 && (Hk == 8 || Hk == 16) && (Vk == 8 || Vk == 16)
      && temp1 < Hk && (xsize + temp1) % Hk == 0
      && temp3 < Vk && (ysize + temp3) % Vk == 0
    }

    /** How many columns of the tile at column x belong to the image. */
    function Width(x: nat): (w: nat)
      requires Valid()
      ensures w <= Hk
    {
      if x == xsize + temp1 - Hk then Hk - temp1 else Hk
    }

    /** How many lines of the tile at line y belong to the image. */
    function Height(y: nat): (h: nat)
      requires Valid()
      ensures h <= Vk
    {
      if y == ysize + temp3 - Vk then Vk - temp3 else Vk
    }
  }

  // ---- how often each pixel of a band is stored

  /** Line and column of a band's pixel. */
  function LineOf(a: nat, f: Extent): nat
    requires f.Valid()
  {
    QuotientBound(a, f.xsize, 0);
    a / f.xsize
  }

  function ColumnOf(a: nat, f: Extent): (c: nat)
    requires f.Valid()
    ensures c < f.xsize
  {
    a % f.xsize
  }

  /** One more for the w pixels from start on. */
  ghost predicate RowCounted(after: seq<nat>, before: seq<nat>, start: int, w: nat) {
    && |after| == |before|
    && forall a :: 0 <= a < |after| ==> after[a] == before[a] + if start <= a < start + w then 1 else 0
  }

  /** One more for the visible columns of the tile at column x, in the first lines of the band. */
  ghost predicate TileCounted(after: seq<nat>, before: seq<nat>, f: Extent, x: nat, lines: nat)
    requires f.Valid()
  {
    && |after| == |before|
    && forall a :: 0 <= a < |after| ==>
         after[a] == before[a] + if LineOf(a, f) < lines && x <= ColumnOf(a, f) < x + f.Width(x) then 1 else 0
  }

  /** The first columns of the first lines of the band have been stored once, nothing else has. */
  ghost predicate StoredOnce(count: seq<nat>, f: Extent, lines: nat, columns: nat)
    requires f.Valid()
  {
    && |count| == f.Vk * f.xsize
    && forall a :: 0 <= a < |count| ==> count[a] == if LineOf(a, f) < lines && ColumnOf(a, f) < columns then 1 else 0
  }

  lemma PlaceInLine(a: nat, xsize: nat, i: nat, x: nat, w: nat)
    requires xsize > 0 && x + w <= xsize
    ensures i * xsize + x <= a < i * xsize + x + w <==> a / xsize == i && x <= a % xsize < x + w
  {
    if i * xsize <= a < i * xsize + xsize {
      DivUnique(a, xsize, i, a - i * xsize);
    } else {
      assert a == a / xsize * xsize + a % xsize;
    }
  }

  lemma RowOfTile(c0: seq<nat>, c1: seq<nat>, c2: seq<nat>, f: Extent, x: nat, i: nat)
    requires f.Valid() && x + f.Width(x) <= f.xsize
    requires TileCounted(c1, c0, f, x, i) && RowCounted(c2, c1, i * f.xsize + x, f.Width(x))
    ensures TileCounted(c2, c0, f, x, i + 1)
  {
    var w := f.Width(x);
    hide Extent.Width, Extent.Valid;
    forall a | 0 <= a < |c2|
      ensures c2[a] == c0[a] + if LineOf(a, f) < i + 1 && x <= ColumnOf(a, f) < x + w then 1 else 0
    {
      PlaceInLine(a, f.xsize, i, x, w);
      assert c1[a] == c0[a] + if LineOf(a, f) < i && x <= ColumnOf(a, f) < x + w then 1 else 0;
    }
  }

  lemma NextTile(c0: seq<nat>, c1: seq<nat>, f: Extent, lines: nat, x: nat)
    requires f.Valid() && StoredOnce(c0, f, lines, x) && TileCounted(c1, c0, f, x, lines)
    ensures StoredOnce(c1, f, lines, x + f.Width(x))
  {
    hide Extent.Width, Extent.Valid, LineOf, ColumnOf;
  }

  lemma CoveredOnce(size: nat, side: nat, temp: nat, x: nat, c: nat)
    requires (side == 8 || side == 16) && temp < side && (size + temp) % side == 0
    requires x % side == 0 && x < size && c < size
    ensures x <= c < x + (if x == size + temp - side then side - temp else side) <==> x == c / side * side
  {
    assert c == c / side * side + c % side;
    if x <= c < x + side {
      DivUnique(c, side, x / side, c - x);
      InsideTile(size, side, temp, x, c - x);
    }
  }

  /** The tiles of a band share no column and leave none out: a column is one of the visible
      ones of the tile at x exactly when x is the tile's place for it. The same holds of lines. */
  lemma OneTile(f: Extent, x: nat, c: nat)
    requires f.Valid() && x % f.Hk == 0 && x < f.xsize && c < f.xsize
    ensures x <= c < x + f.Width(x) <==> x == c / f.Hk * f.Hk
  {
    CoveredOnce(f.xsize, f.Hk, f.temp1, x, c);
  }

  lemma OneBand(f: Extent, y: nat, r: nat)
    requires f.Valid() && y % f.Vk == 0 && y < f.ysize && r < f.ysize
    ensures y <= r < y + f.Height(y) <==> y == r / f.Vk * f.Vk
  {
    CoveredOnce(f.ysize, f.Vk, f.temp3, y, r);
  }

  // ---- placing a row

  /** Stores one pixel. */
  method StorePixel(p: Rgb, at: nat, band: array<int>, ghost count: seq<nat>)
    returns (next: nat, ghost count': seq<nat>)
    requires at + 3 <= band.Length && at % 3 == 0 && at / 3 < |count|
    modifies band
    ensures next == at + 3 && count' == count[at / 3 := count[at / 3] + 1]
    ensures forall a :: 0 <= a < band.Length ==>
      band[a] == if at <= a < at + 3 then Channel(p, a - at) else old(band[a])
  {
    band[at] := p.r;
    band[at + 1] := p.g;
    band[at + 2] := p.b;
    count' := count[at / 3 := count[at / 3] + 1];
    next := at + 3;
  }

  /** The first k pixels of a row are in their places, and nothing else is changed. */
  ghost predicate RowFilled(band: seq<int>, b: seq<int>, flat: seq<int>, wp: nat, k: nat) {
    && |band| == |b| && 3 * k <= |flat|
    && forall a :: 0 <= a < |b| ==> band[a] == if wp <= a < wp + 3 * k then flat[a - wp] else b[a]
  }

  lemma RowStart(b: seq<int>, flat: seq<int>, wp: nat, count: seq<nat>)
    ensures RowFilled(b, b, flat, wp, 0) && RowCounted(count, count, wp / 3, 0)
  {
  }

  lemma ThirdOf(wp: nat, j: nat)
    requires wp % 3 == 0
    ensures (wp + 3 * j) % 3 == 0 && (wp + 3 * j) / 3 == wp / 3 + j
  {
  }

  lemma FlatAt(tile: Tile, c0: nat, w: nat, j: nat)
    requires c0 + w <= 256 && j < w
    ensures var flat, p := Flat(tile, c0, w), ToRgb(tile[c0 + j]);
      flat[3 * j] == p.r && flat[3 * j + 1] == p.g && flat[3 * j + 2] == p.b
  {
    hide ToRgb;
  }

  lemma RowCountedMore(c1: seq<nat>, c2: seq<nat>, c0: seq<nat>, start: nat, k: nat)
    requires RowCounted(c1, c0, start, k) && start + k < |c1| && c2 == c1[start + k := c1[start + k] + 1]
    ensures RowCounted(c2, c0, start, k + 1)
  {
  }

  lemma RowFilledMore(s1: seq<int>, s2: seq<int>, b: seq<int>, flat: seq<int>, wp: nat, k: nat, p: Rgb)
    requires RowFilled(s1, b, flat, wp, k) && 3 * k + 3 <= |flat| && |s2| == |s1|
    requires flat[3 * k] == p.r && flat[3 * k + 1] == p.g && flat[3 * k + 2] == p.b
    requires var at := wp + 3 * k;
      forall a :: 0 <= a < |s2| ==> s2[a] == if at <= a < at + 3 then Channel(p, a - at) else s1[a]
    ensures RowFilled(s2, b, flat, wp, k + 1)
  {
  }

  function Splice(s: seq<int>, flat: seq<int>, p: nat): (r: seq<int>)
    requires p + |flat| <= |s|
    ensures |r| == |s|
  {
    s[..p] + flat + s[p + |flat|..]
  }

  lemma RowIsFilled(s: seq<int>, b: seq<int>, flat: seq<int>, wp: nat, w: nat)
    requires |flat| == 3 * w && wp + 3 * w <= |b| && RowFilled(s, b, flat, wp, w)
    ensures s == Splice(b, flat, wp)
  {
  }

  /** Row i of a tile, as the two inner loops convert and store it: nothing of a line below the
      image, and only the columns inside it, each once. */
  method PlaceRow(f: Extent, tile: Tile, x: nat, y: nat, i: nat, c0: nat, wp: nat, band: array<int>,
                  ghost count: seq<nat>)
    returns (next: nat, ghost count': seq<nat>)
    requires f.Valid() && i < f.Vk && c0 + f.Hk <= 256
    requires i < f.Height(y) ==> wp % 3 == 0 && wp + 3 * f.Width(x) <= band.Length == 3 * |count|
    modifies band
    ensures |count'| == |count|
    ensures i < f.Height(y) ==>
      next == wp + 3 * f.Width(x) &&
      band[..] == Splice(old(band[..]), Flat(tile, c0, f.Width(x)), wp) && RowCounted(count', count, wp / 3, f.Width(x))
    ensures i >= f.Height(y) ==> next == wp && band[..] == old(band[..]) && count' == count
  {
    hide ToRgb, Flat, RowCounted, RowFilled, Splice;
    ghost var b, w := band[..], f.Width(x);
    ghost var flat := Flat(tile, c0, w);
    RowStart(b, flat, wp, count);
    next, count' := wp, count;
    for j := 0 to f.Hk
      invariant |count'| == |count| && (i >= f.Height(y) ==> next == wp && band[..] == b && count' == count)
      invariant i < f.Height(y) ==>
        var k := if j < w then j else w;
        next == wp + 3 * k && RowCounted(count', count, wp / 3, k) && RowFilled(band[..], b, flat, wp, k)
    {
      if (y != f.ysize + f.temp3 - f.Vk || i < f.Vk - f.temp3)
        && (x != f.xsize + f.temp1 - f.Hk || j < f.Hk - f.temp1) {
        FlatAt(tile, c0, w, j);
        ghost var before, counted := band[..], count';
        ThirdOf(wp, j);
        next, count' := StorePixel(ToRgb(tile[c0 + j]), next, band, count');
        RowCountedMore(counted, count', count, wp / 3, j);
        RowFilledMore(before, band[..], b, flat, wp, j, ToRgb(tile[c0 + j]));
      }
    }
    if i < f.Height(y) {
      RowIsFilled(band[..], b, flat, wp, w);
    }
  }

  // ---- one band

  /** Line i of a band. */
  function Line(band: seq<int>, linesize: nat, i: nat, lines: nat): (line: seq<int>)
    requires i < lines && |band| == lines * linesize
    ensures |line| == linesize
  {
    StoredLine(band, linesize, i, lines)
  }

  function LineAt(i: nat, linesize: nat): (a: nat)
    ensures a == i * linesize
  {
    i * linesize
  }

  /** What a tile makes of line i of the band: its visible columns are replaced. */
  function Placed(f: Extent, line: seq<int>, tile: Tile, x: nat, i: nat): (r: seq<int>)
    requires f.Valid() && |line| == 3 * f.xsize && i < f.Vk && x + f.Width(x) <= f.xsize
    ensures |r| == |line|
  {
    Splice(line, Flat(tile, 16 * i, f.Width(x)), 3 * x)
  }

  lemma NothingCounted(count: seq<nat>, f: Extent, x: nat)
    requires f.Valid()
    ensures TileCounted(count, count, f, x, 0)
  {
    hide Extent.Width, LineOf, ColumnOf;
  }

  lemma ThreeTimes(a: nat, b: nat)
    ensures a * (3 * b) == 3 * (a * b)
  {
  }

  lemma Thirds(n: nat, k: nat)
    requires k < 3
    ensures (3 * n + k) / 3 == n && (3 * n + k) % 3 == k
  {
  }

  lemma PixelOfPlace(f: Extent, i: nat, x: nat, pixels: nat, bytes: nat)
    requires pixels == f.Vk * f.xsize && bytes == f.Vk * (3 * f.xsize)
    ensures bytes == 3 * pixels
    ensures (LineAt(i, 3 * f.xsize) + 3 * x) % 3 == 0 && (LineAt(i, 3 * f.xsize) + 3 * x) / 3 == i * f.xsize + x
  {
    ThreeTimes(f.Vk, f.xsize);
    ThreeTimes(i, f.xsize);
    Thirds(i * f.xsize + x, 0);
  }

  lemma OtherSlice(s: seq<int>, flat: seq<int>, p: nat, lo: nat, hi: nat)
    requires p + |flat| <= |s| && lo <= hi <= |s| && (hi <= p || p + |flat| <= lo)
    ensures Splice(s, flat, p)[lo..hi] == s[lo..hi]
  {
  }

  lemma LineSlice(band: seq<int>, n: nat, i: nat, lines: nat)
    requires i < lines && |band| == lines * n && i * n + n <= |band|
    ensures Line(band, n, i, lines) == band[i * n..i * n + n]
  {
  }

  lemma OtherLine(s: seq<int>, flat: seq<int>, n: nat, i: nat, p: nat, k: nat, lines: nat)
    requires i < lines && k < lines && k != i && |s| == lines * n && p + |flat| <= n && i * n + n <= |s|
    ensures Line(Splice(s, flat, i * n + p), n, k, lines) == Line(s, n, k, lines)
  {
    hide Splice, Line;
    LineBounds(i, lines, n);
    LineBounds(k, lines, n);
    if k < i {
      LineBounds(k, i, n);
    } else {
      LineBounds(i, k, n);
    }
    LineSlice(s, n, k, lines);
    LineSlice(Splice(s, flat, i * n + p), n, k, lines);
    OtherSlice(s, flat, i * n + p, k * n, k * n + n);
  }

  lemma SplicedSlice(s: seq<int>, flat: seq<int>, a: nat, n: nat, p: nat)
    requires a + n <= |s| && p + |flat| <= n
    ensures Splice(s, flat, a + p)[a..a + n] == Splice(s[a..a + n], flat, p)
  {
  }

  lemma RowPlaced(f: Extent, before: seq<int>, after: seq<int>, tile: Tile, x: nat, i: nat, n: nat, at: nat)
    requires f.Valid() && x + f.Width(x) <= f.xsize && i < f.Vk && n == 3 * f.xsize && at == i * n
    requires |before| == |after| == f.Vk * n && at + n <= |before|
    requires after == Splice(before, Flat(tile, 16 * i, f.Width(x)), at + 3 * x)
    ensures Line(after, n, i, f.Vk) == Placed(f, Line(before, n, i, f.Vk), tile, x, i)
    ensures forall k :: 0 <= k < f.Vk && k != i ==> Line(after, n, k, f.Vk) == Line(before, n, k, f.Vk)
  {
    var flat := Flat(tile, 16 * i, f.Width(x));
    hide Flat, Splice, Extent.Valid, Extent.Width, Line;
    LineSlice(before, n, i, f.Vk);
    LineSlice(after, n, i, f.Vk);
    SplicedSlice(before, flat, at, n, 3 * x);
    forall k | 0 <= k < f.Vk && k != i
      ensures Line(after, n, k, f.Vk) == Line(before, n, k, f.Vk)
    {
      OtherLine(before, flat, n, i, 3 * x, k, f.Vk);
    }
  }

  /** The two inner loops: the write pointer starts every visible row of the tile at its place in
      the band, 3 (i xsize + x), and the tile changes nothing else. */
  method PlaceTile(f: Extent, tile: Tile, x: nat, y: nat, band: array<int>, ghost count: seq<nat>)
    returns (ghost count': seq<nat>)
    requires f.Valid() && x % f.Hk == 0 && x < f.xsize && y % f.Vk == 0 && y < f.ysize
    requires band.Length == f.Vk * (3 * f.xsize) && |count| == f.Vk * f.xsize
    requires x + f.Width(x) <= f.xsize
    modifies band
    ensures |count'| == |count| && TileCounted(count', count, f, x, f.Height(y))
    ensures forall i :: 0 <= i < f.Height(y) ==>
      Line(band[..], 3 * f.xsize, i, f.Vk) == Placed(f, old(Line(band[..], 3 * f.xsize, i, f.Vk)), tile, x, i)
    ensures forall i :: f.Height(y) <= i < f.Vk ==>
      Line(band[..], 3 * f.xsize, i, f.Vk) == old(Line(band[..], 3 * f.xsize, i, f.Vk))
  {
    hide Line, Placed, Splice, RowCounted, TileCounted;
    var linesize := 3 * f.xsize;
    ghost var b := band[..];
    count' := count;
    NothingCounted(count, f, x);
    var wp, c0 := 3 * x, 0;
    for i := 0 to f.Vk
      invariant c0 == 16 * i && wp >= 0
      invariant i <= f.Height(y) ==> wp == LineAt(i, linesize) + 3 * x
      invariant |count'| == |count| && TileCounted(count', count, f, x, if i < f.Height(y) then i else f.Height(y))
      invariant forall k :: 0 <= k < i && k < f.Height(y) ==>
        Line(band[..], linesize, k, f.Vk) == Placed(f, Line(b, linesize, k, f.Vk), tile, x, k)
      invariant forall k :: f.Height(y) <= k < f.Vk || i <= k < f.Vk ==>
        Line(band[..], linesize, k, f.Vk) == Line(b, linesize, k, f.Vk)
    {
      ghost var before := band[..];
      LineBounds(i, f.Vk, linesize);
      ghost var at := LineAt(i, linesize);
      PixelOfPlace(f, i, x, |count|, band.Length);
      ghost var counted := count';
      var next;
      next, count' := PlaceRow(f, tile, x, y, i, c0, wp, band, count');
      if i < f.Height(y) {
        RowOfTile(count, counted, count', f, x, i);
        RowPlaced(f, before, band[..], tile, x, i, linesize, at);
        OneMore(i, linesize);
      }
      wp := next;
      c0 := c0 + f.Hk;
      if f.Hk < 16 {
        c0 := c0 + f.Hk;
      }
      if x == f.xsize + f.temp1 - f.Hk {
        wp := wp + (linesize - 3 * (f.Hk - f.temp1));
      } else {
        wp := wp + (linesize - 3 * f.Hk);
      }
    }
  }

  // ---- the whole image

  predicate IsTileRow(f: Extent, row: seq<Tile>)
    requires f.Valid()
  {
    |row| == (f.xsize + f.temp1) / f.Hk
  }

  /** Where column x of the image is found. */
  lemma TileColumn(f: Extent, x: nat)
    requires f.Valid() && x < f.xsize
    ensures x / f.Hk < (f.xsize + f.temp1) / f.Hk && x % f.Hk < f.Hk
  {
    QuotientBound(x, f.Hk, (f.xsize + f.temp1) / f.Hk);
  }

  /** Line i of the band that a row of tiles makes: pixel by pixel, out of the tile that covers
      the column. */
  function TiledLine(f: Extent, row: seq<Tile>, i: nat): (line: seq<int>)
    requires f.Valid() && IsTileRow(f, row) && i < f.Vk
    ensures |line| == 3 * f.xsize
  {
    seq(3 * f.xsize, p requires 0 <= p < 3 * f.xsize =>
      (TileColumn(f, p / 3); Channel(ToRgb(row[p / 3 / f.Hk][16 * i + p / 3 % f.Hk]), p % 3)))
  }

  lemma WithinTile(side: nat, x: nat, q: nat)
    requires side > 0 && x % side == 0 && q < side
    ensures (x + q) / side == x / side && (x + q) % side == q
  {
    DivUnique(x + q, side, x / side, q);
  }

  lemma TiledAt(f: Extent, row: seq<Tile>, i: nat, x: nat, q: nat, k: nat)
    requires f.Valid() && IsTileRow(f, row) && x % f.Hk == 0 && i < f.Vk && q < f.Hk && x + q < f.xsize && k < 3
    ensures x / f.Hk < |row| && TiledLine(f, row, i)[3 * (x + q) + k] == Channel(ToRgb(row[x / f.Hk][16 * i + q]), k)
  {
    hide ToRgb;
    TileColumn(f, x + q);
    WithinTile(f.Hk, x, q);
    hide Extent.Valid;
    Thirds(x + q, k);
  }

  /** The visible part of one tile is the part of the line it covers. */
  lemma FlatIsTiled(f: Extent, row: seq<Tile>, x: nat, i: nat)
    requires f.Valid() && IsTileRow(f, row) && x % f.Hk == 0 && x < f.xsize && i < f.Vk && x + f.Width(x) <= f.xsize
    ensures x / f.Hk < |row|
    ensures Flat(row[x / f.Hk], 16 * i, f.Width(x)) == TiledLine(f, row, i)[3 * x..3 * x + 3 * f.Width(x)]
  {
    hide TiledLine, ToRgb;
    TileColumn(f, x);
    var w := f.Width(x);
    hide Extent.Width;
    forall p | 0 <= p < 3 * w
      ensures Flat(row[x / f.Hk], 16 * i, w)[p] == TiledLine(f, row, i)[3 * x + p]
    {
      TiledAt(f, row, i, x, p / 3, p % 3);
    }
  }

  lemma OneLess(a: nat, side: nat)
    requires side > 0 && a >= side
    ensures (a - side) % side == a % side
  {
    DivUnique(a, side, (a - side) / side + 1, (a - side) % side);
  }

  lemma WidthFits(f: Extent, x: nat)
    requires f.Valid() && x % f.Hk == 0 && x < f.xsize
    ensures x + f.Width(x) <= f.xsize && (x + f.Hk >= f.xsize ==> x + f.Width(x) == f.xsize)
    ensures (x + f.Hk) % f.Hk == 0 && (x + f.Hk < f.xsize ==> f.Width(x) == f.Hk)
  {
    MultiplesApart(x, f.xsize + f.temp1, f.Hk);
    if x < f.xsize + f.temp1 - f.Hk {
      assert (f.xsize + f.temp1 - f.Hk) % f.Hk == 0 by { OneLess(f.xsize + f.temp1, f.Hk); }
      MultiplesApart(x, f.xsize + f.temp1 - f.Hk, f.Hk);
    }
    OneLess(x + f.Hk, f.Hk);
  }

  /** The first columns of a band's visible lines are the tiles'. */
  ghost predicate BandAgrees(band: seq<int>, f: Extent, row: seq<Tile>, y: nat, columns: nat)
    requires f.Valid() && IsTileRow(f, row) && |band| == f.Vk * (3 * f.xsize) && columns <= f.xsize
  {
    forall i :: 0 <= i < f.Height(y) ==>
      Line(band, 3 * f.xsize, i, f.Vk)[..3 * columns] == TiledLine(f, row, i)[..3 * columns]
  }

  lemma SplicePrefix(line: seq<int>, target: seq<int>, p: nat, w: nat)
    requires |line| == |target| && p + w <= |line| && line[..p] == target[..p]
    ensures Splice(line, target[p..p + w], p)[..p + w] == target[..p + w]
  {
    assert target[..p + w] == target[..p] + target[p..p + w];
  }

  lemma BandGrows(before: seq<int>, after: seq<int>, f: Extent, row: seq<Tile>, y: nat, x: nat)
    requires f.Valid() && IsTileRow(f, row) && |before| == |after| == f.Vk * (3 * f.xsize)
    requires x % f.Hk == 0 && x < f.xsize && x + f.Width(x) <= f.xsize && x / f.Hk < |row|
      && BandAgrees(before, f, row, y, x)
    requires forall i :: 0 <= i < f.Height(y) ==>
      Line(after, 3 * f.xsize, i, f.Vk) == Placed(f, Line(before, 3 * f.xsize, i, f.Vk), row[x / f.Hk], x, i)
    ensures BandAgrees(after, f, row, y, x + f.Width(x))
  {
    hide Line, TiledLine, Extent.Width, Extent.Height, IsTileRow, Flat, Splice;
    forall i | 0 <= i < f.Height(y)
      ensures Line(after, 3 * f.xsize, i, f.Vk)[..3 * (x + f.Width(x))] == TiledLine(f, row, i)[..3 * (x + f.Width(x))]
    {
      FlatIsTiled(f, row, x, i);
      SplicePrefix(Line(before, 3 * f.xsize, i, f.Vk), TiledLine(f, row, i), 3 * x, 3 * f.Width(x));
    }
  }

  lemma BandComplete(band: seq<int>, f: Extent, row: seq<Tile>, y: nat)
    requires f.Valid() && IsTileRow(f, row) && |band| == f.Vk * (3 * f.xsize) && BandAgrees(band, f, row, y, f.xsize)
    ensures forall i :: 0 <= i < f.Height(y) ==> Line(band, 3 * f.xsize, i, f.Vk) == TiledLine(f, row, i)
  {
    hide Line, TiledLine, Extent.Height, IsTileRow;
    forall i | 0 <= i < f.Height(y)
      ensures Line(band, 3 * f.xsize, i, f.Vk) == TiledLine(f, row, i)
    {
      var line, tiled := Line(band, 3 * f.xsize, i, f.Vk), TiledLine(f, row, i);
      assert line[..3 * f.xsize] == line && tiled[..3 * f.xsize] == tiled;
    }
  }

  lemma NothingAgrees(band: seq<int>, f: Extent, row: seq<Tile>, y: nat)
    requires f.Valid() && IsTileRow(f, row) && |band| == f.Vk * (3 * f.xsize)
    ensures BandAgrees(band, f, row, y, 0)
  {
    hide Line, TiledLine, Extent.Height, IsTileRow;
  }

  lemma NoStores(f: Extent, lines: nat) returns (count: seq<nat>)
    requires f.Valid()
    ensures |count| == f.Vk * f.xsize && StoredOnce(count, f, lines, 0)
  {
    hide LineOf, ColumnOf;
    count := seq(f.Vk * f.xsize, _ => 0);
  }

  /** A band: every line of it that lies in the image comes from the tiles, whole, each pixel
      stored once. */
  method PlaceBand(f: Extent, row: seq<Tile>, y: nat, band: array<int>) returns (ghost count: seq<nat>)
    requires f.Valid() && IsTileRow(f, row) && y % f.Vk == 0 && y < f.ysize && band.Length == f.Vk * (3 * f.xsize)
    modifies band
    ensures forall i :: 0 <= i < f.Height(y) ==> Line(band[..], 3 * f.xsize, i, f.Vk) == TiledLine(f, row, i)
    ensures StoredOnce(count, f, f.Height(y), f.xsize)
  {
    hide Line, TiledLine, Extent.Width, Extent.Height, IsTileRow, StoredOnce, TileCounted, BandAgrees, Placed;
    count := NoStores(f, f.Height(y));
    NothingAgrees(band[..], f, row, y);
    var x := 0;
    ghost var done := 0;
    while x < f.xsize
      invariant x % f.Hk == 0 && done == if x < f.xsize then x else f.xsize
      invariant |count| == f.Vk * f.xsize && StoredOnce(count, f, f.Height(y), done)
      invariant BandAgrees(band[..], f, row, y, done)
    {
      WidthFits(f, x);
      ghost var before := band[..];
      assert x / f.Hk < |row| by { FlatIsTiled(f, row, x, 0); }
      ghost var counted := count;
      count := PlaceTile(f, row[x / f.Hk], x, y, band, count);
      NextTile(counted, count, f, f.Height(y), x);
      BandGrows(before, band[..], f, row, y, x);
      x, done := x + f.Hk, x + f.Width(x);
    }
    BandComplete(band[..], f, row, y);
  }

  predicate IsTiling(f: Extent, tiles: seq<seq<Tile>>)
    requires f.Valid()
  {
    |tiles| == (f.ysize + f.temp3) / f.Vk && forall t :: 0 <= t < |tiles| ==> IsTileRow(f, tiles[t])
  }

  /** The bands come out one after the other; in each, the visible lines are the tiles'. */
  ghost predicate AreBands(f: Extent, tiles: seq<seq<Tile>>, bands: seq<seq<int>>)
    requires f.Valid() && IsTiling(f, tiles) && |bands| <= |tiles|
  {
    && AllOfLength(bands, f.Vk * (3 * f.xsize))
    && forall t, i :: 0 <= t < |bands| && 0 <= i < f.Height(t * f.Vk) ==>
         Line(bands[t], 3 * f.xsize, i, f.Vk) == TiledLine(f, tiles[t], i)
  }

  lemma NextBand(f: Extent, t: nat, n: nat)
    requires f.Valid() && n == (f.ysize + f.temp3) / f.Vk && t * f.Vk < f.ysize
    ensures t < n && t * f.Vk / f.Vk == t && (t + 1) * f.Vk == t * f.Vk + f.Vk && (t * f.Vk) % f.Vk == 0
      && ((t + 1) * f.Vk) % f.Vk == 0
    ensures (t + 1) * f.Vk >= f.ysize ==> t + 1 == n
  {
    DivUnique(t * f.Vk, f.Vk, t, 0);
    DivUnique((t + 1) * f.Vk, f.Vk, t + 1, 0);
    QuotientBound(t * f.Vk, f.Vk, n);
    QuotientBound(f.ysize + f.temp3, f.Vk, t + 2);
  }

  /** The outer loops. The last band is written in full, padding lines included. */
  method BuildBands(f: Extent, tiles: seq<seq<Tile>>) returns (file: seq<int>, ghost bands: seq<seq<int>>)
    requires f.Valid() && IsTiling(f, tiles)
    ensures |bands| == |tiles| && AreBands(f, tiles, bands) && file == Concat(bands)
  {
    hide Line, TiledLine, Extent.Height, IsTileRow, Concat;
    var band := new int[f.Vk * (3 * f.xsize)];
    file, bands := [], [];
    assert Concat(bands) == [] by { ConcatEmpty(bands); }
    var y := 0;
    while y < f.ysize
      invariant y == |bands| * f.Vk && y % f.Vk == 0 && |bands| <= |tiles|
      invariant y >= f.ysize ==> |bands| == |tiles|
      invariant AreBands(f, tiles, bands) && file == Concat(bands)
    {
      NextBand(f, |bands|, |tiles|);
      ghost var count := PlaceBand(f, tiles[y / f.Vk], y, band);
      ghost var more := bands + [band[..]];
      assert Concat(more) == Concat(more[..|bands|])
        + more[|bands|] by { ConcatStep(more, |bands|); assert more[..|more|] == more; }
      assert more[..|bands|] == bands;
      file := file + band[..];
      y, bands := y + f.Vk, more;
    }
  }

  lemma BandInFile(bands: seq<seq<int>>, size: nat, t: nat, b: nat)
    requires AllOfLength(bands, size) && t < |bands| && b == t * size
    ensures |bands[t]| == size && b + size <= |Concat(bands)| && Concat(bands)[b..b + size] == bands[t]
  {
    hide Concat;
    ConcatLine(bands, size, t);
    LineBounds(t, |bands|, size);
  }

  lemma LineInFile(file: seq<int>, band: seq<int>, size: nat, b: nat, a: nat, at: nat, n: nat)
    requires at == b + a && a + n <= size && b + size <= |file| && file[b..b + size] == band
    ensures at + n <= |file| && file[at..at + n] == band[a..a + n]
  {
    SliceOfSlice(file, b, b + size, a, a + n);
  }

  /** Where line i of band t is in the file. */
  lemma PlaceOfLine(lines: nat, n: nat, t: nat, i: nat, size: nat, b: nat, a: nat, at: nat)
    requires i < lines && size == lines * n && b == t * size && a == i * n && at == (t * lines + i) * n
    ensures at == b + a && a + n <= size
  {
    LineBounds(i, lines, n);
    MulAssociative(t, lines, n);
  }

  /** Line y of the image in the file. */
  lemma LineOfBand(f: Extent, bands: seq<seq<int>>, t: nat, i: nat, y: nat)
    requires f.Valid() && AllOfLength(bands, f.Vk * (3 * f.xsize)) && t < |bands| && i < f.Vk && y == t * f.Vk + i
    ensures 0 <= y * (3 * f.xsize) && y * (3 * f.xsize) + 3 * f.xsize <= |Concat(bands)|
    ensures Concat(bands)[y * (3 * f.xsize)..y * (3 * f.xsize) + 3 * f.xsize] == Line(bands[t], 3 * f.xsize, i, f.Vk)
  {
    hide *;
    var n := 3 * f.xsize;
    var size, a, at := f.Vk * n, LineAt(i, n), LineAt(y, n);
    var b := LineAt(t, size);
    PlaceOfLine(f.Vk, n, t, i, size, b, a, at);
    BandInFile(bands, size, t, b);
    LineInFile(Concat(bands), bands[t], size, b, a, at, n);
    LineSlice(bands[t], n, i, f.Vk);
  }

  /** The file shows, at the place of a pixel in an image without padding, the pixel of the tile
      that covers it. */
  ghost predicate Shows(f: Extent, tiles: seq<seq<Tile>>, file: seq<int>, row: nat, col: nat)
    requires f.Valid() && IsTiling(f, tiles) && row < f.ysize && col < f.xsize
  {
    var place := 3 * (row * f.xsize + col);
    && place + 3 <= |file| && row / f.Vk < |tiles| && col / f.Hk < |tiles[row / f.Vk]|
    && var pixel := ToRgb(tiles[row / f.Vk][col / f.Hk][16 * (row % f.Vk) + col % f.Hk]);
       file[place] == pixel.r && file[place + 1] == pixel.g && file[place + 2] == pixel.b
  }

  lemma PixelPlace(row: nat, xsize: nat, col: nat)
    ensures row * (3 * xsize) + 3 * col == 3 * (row * xsize + col)
  {
  }

  lemma TiledPixel(f: Extent, row: seq<Tile>, i: nat, col: nat)
    requires f.Valid() && IsTileRow(f, row) && i < f.Vk && col < f.xsize
    ensures col / f.Hk < |row| && col % f.Hk < f.Hk
    ensures var pixel := ToRgb(row[col / f.Hk][16 * i + col % f.Hk]); var line := TiledLine(f, row, i);
      line[3 * col] == pixel.r && line[3 * col + 1] == pixel.g && line[3 * col + 2] == pixel.b
  {
    hide ToRgb;
    TileColumn(f, col);
    hide Extent.Valid;
    Thirds(col, 0);
    Thirds(col, 1);
    Thirds(col, 2);
  }

  lemma InLine(file: seq<int>, line: seq<int>, n: nat, at: int, p: nat)
    requires 0 <= at && at + n <= |file| && file[at..at + n] == line && p + 3 <= n
    ensures |line| == n && file[at + p] == line[p] && file[at + p + 1] == line[p + 1] && file[at + p + 2] == line[p + 2]
  {
  }

  lemma VisiblePlace(size: nat, side: nat, temp: nat, row: nat, n: nat)
    requires (side == 8 || side == 16) && temp < side && (size + temp) % side == 0
    requires row < size && n == (size + temp) / side
    ensures var y := row / side * side;
      row / side < n && y + row % side == row && row % side < if y == size + temp - side then side - temp else side
  {
    var t := row / side;
    QuotientBound(row, side, n);
    DivUnique(t * side, side, t, 0);
    InsideTile(size, side, temp, t * side, row % side);
  }

  lemma VisibleRow(f: Extent, row: nat, n: nat)
    requires f.Valid() && row < f.ysize && n == (f.ysize + f.temp3) / f.Vk
    ensures row / f.Vk < n && row % f.Vk < f.Height(row / f.Vk * f.Vk) && row / f.Vk * f.Vk + row % f.Vk == row
  {
    VisiblePlace(f.ysize, f.Vk, f.temp3, row, n);
  }

  lemma ShowsAt(f: Extent, tiles: seq<seq<Tile>>, bands: seq<seq<int>>, row: nat, col: nat)
    requires f.Valid() && IsTiling(f, tiles) && row < f.ysize && col < f.xsize
    requires |bands| == |tiles| && AreBands(f, tiles, bands)
    ensures Shows(f, tiles, Concat(bands), row, col)
  {
    hide Concat, Line, TiledLine, Extent.Height;
    var t, i, at := row / f.Vk, row % f.Vk, row * (3 * f.xsize);
    VisibleRow(f, row, |tiles|);
    LineOfBand(f, bands, t, i, row);
    assert IsTileRow(f, tiles[t]);
    hide AreBands, IsTiling, Extent.Valid;
    TiledPixel(f, tiles[t], i, col);
    InLine(Concat(bands), TiledLine(f, tiles[t], i), 3 * f.xsize, at, 3 * col);
    PixelPlace(row, f.xsize, col);
  }

  lemma FileLength(f: Extent, tiles: seq<seq<Tile>>, bands: seq<seq<int>>)
    requires f.Valid() && IsTiling(f, tiles) && |bands| == |tiles| && AllOfLength(bands, f.Vk * (3 * f.xsize))
    ensures |Concat(bands)| == (f.ysize + f.temp3) * (3 * f.xsize)
  {
    ConcatLength(bands, f.Vk * (3 * f.xsize));
    MulAssociative(|tiles|, f.Vk, 3 * f.xsize);
  }

  /** The tiles of an image, for tiles of these sides: as few as cover it. */
  ghost predicate Cover(tiles: seq<seq<Tile>>, xsize: nat, ysize: nat, across: nat, down: nat)
    requires across > 0 && down > 0
  {
    && |tiles| == (ysize + down - 1) / down
    && forall t :: 0 <= t < |tiles| ==> |tiles[t]| == (xsize + across - 1) / across
  }

  function RgbOf(file: seq<int>, place: nat): Rgb
    requires place + 3 <= |file|
  {
    Rgb(file[place], file[place + 1], file[place + 2])
  }

  /** Pixel (row, col) of the file is that of the tile it falls into, converted. */
  ghost predicate ShowsTiles(tiles: seq<seq<Tile>>, file: seq<int>, xsize: nat, across: nat, down: nat,
                             row: nat, col: nat)
    requires (across == 8 || across == 16) && (down == 8 || down == 16)
  {
    var place := 3 * (row * xsize + col);
    && place + 3 <= |file| && row / down < |tiles| && col / across < |tiles[row / down]|
    && RgbOf(file, place) == ToRgb(tiles[row / down][col / across][16 * (row % down) + col % across])
  }

  ghost predicate ShowsAll(tiles: seq<seq<Tile>>, file: seq<int>, xsize: nat, ysize: nat, across: nat, down: nat)
    requires (across == 8 || across == 16) && (down == 8 || down == 16)
  {
    forall row, col :: 0 <= row < ysize && 0 <= col < xsize ==> ShowsTiles(tiles, file, xsize, across, down, row, col)
  }

  lemma RoundsUp(size: nat, side: nat, temp: nat)
    requires side > 0 && temp < side && (size + temp) % side == 0
    ensures (size + temp) / side == (size + side - 1) / side && size + temp == (size + side - 1) / side * side
  {
    var q := (size + temp) / side;
    assert size + temp == side * q;
    DivUnique(size + side - 1, side, q, side - 1 - temp);
  }

  lemma ShowsIsShown(f: Extent, tiles: seq<seq<Tile>>, file: seq<int>, row: nat, col: nat)
    requires f.Valid() && IsTiling(f, tiles) && row < f.ysize && col < f.xsize && Shows(f, tiles, file, row, col)
    ensures ShowsTiles(tiles, file, f.xsize, f.Hk, f.Vk, row, col)
  {
    hide ToRgb, IsTiling, Extent.Valid;
  }

  lemma CoverIsTiling(f: Extent, tiles: seq<seq<Tile>>)
    requires f.Valid() && Cover(tiles, f.xsize, f.ysize, f.Hk, f.Vk)
    ensures IsTiling(f, tiles)
  {
    RoundsUp(f.xsize, f.Hk, f.temp1);
    RoundsUp(f.ysize, f.Vk, f.temp3);
  }

  /** The whole builder for sizes of every kind. The five formats have tiles of two blocks across,
      except for 2 and 5, and of two blocks down, except for 2 and 4. The file has whole bands of
      lines, as few as hold the image, and every pixel of the image is in its place. */
  method BuildImage(xsize: nat, ysize: nat, format: nat, tiles: seq<seq<Tile>>) returns (file: seq<int>)
    requires xsize > 0 && ysize > 0 && 1 <= format <= 5
    requires Cover(tiles, xsize, ysize, if format in {2, 5} then 8 else 16, if format in {2, 4} then 8 else 16)
    ensures |file| == (if format in {2, 4} then (ysize + 7) / 8 * 8 else (ysize + 15) / 16 * 16) * (3 * xsize)
    ensures ShowsAll(tiles, file, xsize, ysize, if format in {2, 5} then 8 else 16, if format in {2, 4} then 8 else 16)
  {
    hide ShowsTiles, ToRgb;
    var (Hk, Vk) := TileSize(format);
    var temp1 := Padding(xsize, Hk);
    var temp3 := Padding(ysize, Vk);
    var f := Extent(xsize, ysize, Hk, Vk, temp1, temp3);
    CoverIsTiling(f, tiles);
    RoundsUp(ysize, Vk, temp3);
    hide IsTiling, Shows, Concat, AreBands, Cover;
    ghost var bands;
    file, bands := BuildBands(f, tiles);
    forall row, col | 0 <= row < ysize && 0 <= col < xsize
      ensures ShowsTiles(tiles, file, xsize, Hk, Vk, row, col)
    {
      ShowsAt(f, tiles, bands, row, col);
      ShowsIsShown(f, tiles, file, row, col);
    }
    FileLength(f, tiles, bands);
  }
}
