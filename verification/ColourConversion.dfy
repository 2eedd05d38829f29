/** Between red, green, blue and luminance, chrominance: the 16-bit fixed-point arithmetic that all
    the image programs share. */
module ColourConversion {
  datatype Rgb = Rgb(r: int, g: int, b: int) {
    predicate IsPixel() {
      0 <= r < 256 && 0 <= g < 256 && 0 <= b < 256
    }
  }

  datatype Ycc = Ycc(l: int, cb: int, cr: int)

  /** C's division by 65536, which cuts towards zero. */
  function Units(v: int): int {
    if v >= 0 then v / 65536 else -(-v / 65536)
  }

  function ToByte(v: int): (b: int)
    ensures 0 <= b < 256
  {
    if v < 0 then 0 else if v > 255 then 255 else v
  }

  function ToYcc(p: Rgb): Ycc {
    Ycc(ToByte(Units(19595 * p.r + 38470 * p.g + 7471 * p.b + 32768)),
        ToByte(Units(-11056 * p.r - 21712 * p.g + 32768 * p.b + 8388608 + 32768)),
        ToByte(Units(32768 * p.r - 27440 * p.g - 5328 * p.b + 8388608 + 32768)))
  }

  function ToRgb(c: Ycc): Rgb {
    Rgb(ToByte(Units(c.l * 65536 + 91881 * (c.cr - 128))),
        ToByte(Units(c.l * 65536 - 22554 * (c.cb - 128) - 46802 * (c.cr - 128))),
        ToByte(Units(c.l * 65536 + 116130 * (c.cb - 128))))
  }

  /** A value within whole units of those of a byte is cut to within as many of the byte. */
  lemma CutWithin(v: int, b: int, down: nat, up: nat)
    requires 0 <= b < 256 && 65536 * (b - down) <= v < 65536 * (b + up + 1)
    ensures b - down <= ToByte(Units(v)) <= b + up
  {
  }

  /** The sample is the scaled sum s cut down to whole units, or up to loss less. */
  predicate CutFrom(s: int, c: int, loss: nat) {
    s - 65536 * (1 + loss) <= 65536 * c <= s
  }

  function LumaSum(p: Rgb): int {
    19595 * p.r + 38470 * p.g + 7471 * p.b + 32768
  }

  function CbSum(p: Rgb): int {
    -11056 * p.r - 21712 * p.g + 32768 * p.b + 32768
  }

  function CrSum(p: Rgb): int {
    32768 * p.r - 27440 * p.g - 5328 * p.b + 32768
  }

  function RedOf(c: Ycc): int {
    65536 * c.l + 91881 * (c.cr - 128)
  }

  function GreenOf(c: Ycc): int {
    65536 * c.l - 22554 * (c.cb - 128) - 46802 * (c.cr - 128)
  }

  function BlueOf(c: Ycc): int {
    65536 * c.l + 116130 * (c.cb - 128)
  }

  /** b is the whole part of v in units of 65536, or the byte nearest to it. */
  predicate WholePart(b: int, v: int) {
    if v < 0 then b == 0 else if v >= 0x100_0000 then b == 255 else 0 <= v - 65536 * b < 65536
  }

  lemma CutToByte(v: int)
    ensures WholePart(ToByte(Units(v)), v)
  {
  }

  /** Every sample is its sum rounded to whole units, and no more than 255. */
  lemma SamplesAreRounded(p: Rgb)
    ensures WholePart(ToYcc(p).l, LumaSum(p)) && WholePart(ToYcc(p).cb, CbSum(p) + 0x80_0000)
    ensures WholePart(ToYcc(p).cr, CrSum(p) + 0x80_0000)
  {
    CutToByte(LumaSum(p));
    CutToByte(CbSum(p) + 0x80_0000);
    CutToByte(CrSum(p) + 0x80_0000);
    hide WholePart, ToByte, Units;
  }

  /** Every channel is its sum cut down to whole units, and from 0 to 255. */
  lemma ChannelsAreCut(c: Ycc)
    ensures WholePart(ToRgb(c).r, RedOf(c)) && WholePart(ToRgb(c).g, GreenOf(c)) && WholePart(ToRgb(c).b, BlueOf(c))
  {
    CutToByte(RedOf(c));
    CutToByte(GreenOf(c));
    CutToByte(BlueOf(c));
    hide WholePart, ToByte, Units;
  }

  predicate Near(a: real, b: real, d: real) {
    b - d <= a <= b + d
  }

  /** The sums, in units of 65536, are those of JFIF with its factors to four places, half a unit
      for rounding added: every factor is off by no more than half. */
  lemma SumsAreJfif(p: Rgb)
    requires p.IsPixel()
    ensures var r, g, b := p.r as real, p.g as real, p.b as real;
      && Near(LumaSum(p) as real, 65536.0 * (0.299 * r + 0.587 * g + 0.114 * b + 0.5), 0.5 * (r + g + b))
      && Near(CbSum(p) as real, 65536.0 * (-0.1687 * r - 0.3313 * g + 0.5 * b + 0.5), 0.5 * (r + g))
      && Near(CrSum(p) as real, 65536.0 * (0.5 * r - 0.4187 * g - 0.0813 * b + 0.5), 0.5 * (g + b))
  {
  }

  lemma ChannelSumsAreJfif(c: Ycc, db: nat, dr: nat)
    requires -(db as int) <= c.cb - 128 <= db && -(dr as int) <= c.cr - 128 <= dr
    ensures var l, cb, cr := c.l as real, (c.cb - 128) as real, (c.cr - 128) as real;
      && Near(RedOf(c) as real, 65536.0 * (l + 1.402 * cr), 0.5 * dr as real)
      && Near(GreenOf(c) as real, 65536.0 * (l - 0.34414 * cb - 0.71414 * cr), 0.5 * (db + dr) as real)
      && Near(BlueOf(c) as real, 65536.0 * (l + 1.772 * cb), 0.5 * db as real)
  {
  }

  /** No sample falls below zero, and only those of pure blue and pure red are cut off at 255. */
  lemma YccRange(p: Rgb)
    requires p.IsPixel()
    ensures CutFrom(LumaSum(p), ToYcc(p).l, 0)
    ensures CutFrom(CbSum(p), ToYcc(p).cb - 128, 0) && CutFrom(CrSum(p), ToYcc(p).cr - 128, 0)
  {
  }

  // The sums before the second cut.

  lemma RedSum(p: Rgb, l: int, dr: int, loss: nat)
    requires p.IsPixel() && loss <= 1 && CutFrom(LumaSum(p), l, loss) && CutFrom(CrSum(p), dr, loss)
    ensures 65536 * (p.r - 2 - 2 * loss) <= l * 65536 + 91881 * dr < 65536 * (p.r + 2)
  {
  }

  lemma GreenNotBelow(p: Rgb, l: int, db: int, dr: int, loss: nat)
    requires p.IsPixel() && CutFrom(LumaSum(p), l, loss) && CutFrom(CbSum(p), db, loss) && CutFrom(CrSum(p), dr, loss)
    ensures 65536 * (p.g - 2 - loss) <= l * 65536 - 22554 * db - 46802 * dr
  {
  }

  lemma GreenNotAbove(p: Rgb, l: int, db: int, dr: int, loss: nat)
    requires p.IsPixel() && loss <= 1
    requires CutFrom(LumaSum(p), l, loss) && CutFrom(CbSum(p), db, loss) && CutFrom(CrSum(p), dr, loss)
    ensures l * 65536 - 22554 * db - 46802 * dr < 65536 * (p.g + 2 + loss)
  {
  }

  lemma BlueSum(p: Rgb, l: int, db: int, loss: nat)
    requires p.IsPixel() && loss <= 1 && CutFrom(LumaSum(p), l, loss) && CutFrom(CbSum(p), db, loss)
    ensures 65536 * (p.b - 2 - 3 * loss) <= l * 65536 + 116130 * db < 65536 * (p.b + 2)
  {
  }

  lemma RedBack(p: Rgb, c: Ycc, loss: nat)
    requires p.IsPixel() && loss <= 1 && CutFrom(LumaSum(p), c.l, loss) && CutFrom(CrSum(p), c.cr - 128, loss)
    ensures p.r - 2 - 2 * loss <= ToRgb(c).r <= p.r + 1
  {
    hide CutFrom, LumaSum, CrSum, ToByte, Units;
    RedSum(p, c.l, c.cr - 128, loss);
    CutWithin(c.l * 65536 + 91881 * (c.cr - 128), p.r, 2 + 2 * loss, 1);
  }

  lemma GreenBack(p: Rgb, c: Ycc, loss: nat)
    requires p.IsPixel() && loss <= 1 && CutFrom(LumaSum(p), c.l, loss)
    requires CutFrom(CbSum(p), c.cb - 128, loss) && CutFrom(CrSum(p), c.cr - 128, loss)
    ensures p.g - 2 - loss <= ToRgb(c).g <= p.g + 1 + loss
  {
    hide CutFrom, LumaSum, CbSum, CrSum, ToByte, Units;
    GreenNotBelow(p, c.l, c.cb - 128, c.cr - 128, loss);
    GreenNotAbove(p, c.l, c.cb - 128, c.cr - 128, loss);
    CutWithin(c.l * 65536 - 22554 * (c.cb - 128) - 46802 * (c.cr - 128), p.g, 2 + loss, 1 + loss);
  }

  lemma BlueBack(p: Rgb, c: Ycc, loss: nat)
    requires p.IsPixel() && loss <= 1 && CutFrom(LumaSum(p), c.l, loss) && CutFrom(CbSum(p), c.cb - 128, loss)
    ensures p.b - 2 - 3 * loss <= ToRgb(c).b <= p.b + 1
  {
    hide CutFrom, LumaSum, CbSum, ToByte, Units;
    BlueSum(p, c.l, c.cb - 128, loss);
    CutWithin(c.l * 65536 + 116130 * (c.cb - 128), p.b, 2 + 3 * loss, 1);
  }

  lemma SamplesCut(p: Rgb, c: Ycc, loss: nat)
    requires p.IsPixel() && loss <= 1
    requires 0 <= ToYcc(p).l - c.l <= loss && 0 <= ToYcc(p).cb - c.cb <= loss && 0 <= ToYcc(p).cr - c.cr <= loss
    ensures CutFrom(LumaSum(p), c.l, loss) && CutFrom(CbSum(p), c.cb - 128, loss) && CutFrom(CrSum(p), c.cr - 128, loss)
  {
    YccRange(p);
    hide ToYcc, LumaSum, CbSum, CrSum;
  }

  /** Converting every pixel there and back changes no channel by more than 2 downwards or 1
      upwards. With samples one too dark it is at most 5 and 2. */
  lemma ThereAndBack(p: Rgb, c: Ycc, loss: nat)
    requires p.IsPixel() && loss <= 1
    requires 0 <= ToYcc(p).l - c.l <= loss && 0 <= ToYcc(p).cb - c.cb <= loss && 0 <= ToYcc(p).cr - c.cr <= loss
    ensures -2 - 2 * loss <= ToRgb(c).r - p.r <= 1
    ensures -2 - loss <= ToRgb(c).g - p.g <= 1 + loss
    ensures -2 - 3 * loss <= ToRgb(c).b - p.b <= 1
  {
    SamplesCut(p, c, loss);
    hide ToYcc, ToRgb, Units, ToByte, CutFrom, LumaSum, CbSum, CrSum;
    RedBack(p, c, loss);
    GreenBack(p, c, loss);
    BlueBack(p, c, loss);
  }

  /** Greys come back as they were. */
  lemma GreysSurvive(v: int)
    requires 0 <= v < 256
    ensures ToYcc(Rgb(v, v, v)) == Ycc(v, 128, 128) && ToRgb(Ycc(v, 128, 128)) == Rgb(v, v, v)
  {
  }

  // ---- lines, pixel by pixel

  function RgbAt(line: seq<int>, x: nat): Rgb
    requires 3 * x + 3 <= |line|
  {
    Rgb(line[3 * x], line[3 * x + 1], line[3 * x + 2])
  }

  function YccAt(line: seq<int>, x: nat): Ycc
    requires 3 * x + 3 <= |line|
  {
    Ycc(line[3 * x], line[3 * x + 1], line[3 * x + 2])
  }

  function YccLine(rgb: seq<int>): (ycc: seq<int>)
    requires |rgb| % 3 == 0
    ensures |ycc| == |rgb| && forall i :: 0 <= i < |ycc| ==> 0 <= ycc[i] < 256
  {
    seq(|rgb|, i requires 0 <= i < |rgb| =>
      var c := ToYcc(RgbAt(rgb, i / 3)); if i % 3 == 0 then c.l else if i % 3 == 1 then c.cb else c.cr)
  }

  function RgbLine(ycc: seq<int>): (rgb: seq<int>)
    requires |ycc| % 3 == 0
    ensures |rgb| == |ycc| && forall i :: 0 <= i < |rgb| ==> 0 <= rgb[i] < 256
  {
    seq(|ycc|, i requires 0 <= i < |ycc| =>
      var p := ToRgb(YccAt(ycc, i / 3)); if i % 3 == 0 then p.r else if i % 3 == 1 then p.g else p.b)
  }

  lemma PixelOfLine(line: seq<int>, x: nat)
    requires |line| % 3 == 0 && 3 * x + 3 <= |line|
    ensures YccAt(YccLine(line), x) == ToYcc(RgbAt(line, x)) && RgbAt(RgbLine(line), x) == ToRgb(YccAt(line, x))
  {
    hide ToYcc, ToRgb;
  }

  lemma PixelSamples(rgb: seq<int>, x: nat)
    requires |rgb| % 3 == 0 && 3 * x + 3 <= |rgb|
    ensures var ycc, c := YccLine(rgb), ToYcc(RgbAt(rgb, x));
      ycc[3 * x] == c.l && ycc[3 * x + 1] == c.cb && ycc[3 * x + 2] == c.cr
  {
    hide YccLine, ToYcc, RgbAt;
    PixelOfLine(rgb, x);
  }

  lemma WholePixel(n: nat, x: nat)
    requires n % 3 == 0 && 3 * x < n
    ensures 3 * x + 3 <= n
  {
  }

  /** How far a pixel may be from what it was, when no sample is lost or each may be one too dark. */
  predicate PixelKept(p: Rgb, q: Rgb, loss: nat) {
    && -2 - 2 * loss <= q.r - p.r <= 1 && -2 - loss <= q.g - p.g <= 1 + loss && -2 - 3 * loss <= q.b - p.b <= 1
    && (loss == 0 && p.r == p.g == p.b ==> q == p)
  }

  /** What the conversions do to a line: the samples it comes back with, if those it is
      converted from are the right ones or one less. */
  lemma LineThereAndBack(rgb: seq<int>, ycc: seq<int>, loss: nat, x: nat)
    requires |rgb| == |ycc| && |rgb| % 3 == 0 && 3 * x + 3 <= |rgb| && RgbAt(rgb, x).IsPixel() && loss <= 1
    requires forall i :: 0 <= i < |ycc| ==> 0 <= YccLine(rgb)[i] - ycc[i] <= loss
    ensures PixelKept(RgbAt(rgb, x), RgbAt(RgbLine(ycc), x), loss)
  {
    hide ToYcc, ToRgb, YccLine, RgbLine;
    PixelOfLine(rgb, x);
    PixelOfLine(ycc, x);
    ThereAndBack(RgbAt(rgb, x), YccAt(ycc, x), loss);
    GreysSurvive(rgb[3 * x]);
    assert loss == 0 ==> YccAt(ycc, x) == YccAt(YccLine(rgb), x);
  }
}
