/** The HSV side of `ColorUtils` (src/ts/Utils/ColorUtils.ts:138-250): RGB to and from
    HSV. Like the HSL side, the step-by-step source functions are methods proved equal
    to specification functions. */
module HsvConversions {
  import opened Wrappers
  import opened JsNumber
  import opened ColorTypes
  import opened RealFacts
  import opened ColorConversions

  // ---------------------------------------------------------------------------
  // RGB to HSV (src/ts/Utils/ColorUtils.ts:211-239)

  /** The HSV form of an RGB colour: the value is the largest channel fraction, the
      saturation the chroma (largest minus smallest) over the value (0 for black),
      and the hue, in degrees, is read off the first of red, green and blue that
      attains the maximum. The hue is not brought into [0, 360): a colour whose red is
      largest and whose blue exceeds its green gets a negative hue. A grey has chroma
      0 and its hue is `0 / 0`, NaN. */
  function HsvOf(c: Rgb): (r: Hsv)
    ensures IsGrey(c) ==> r.h.NaN? && r.s == 0.0
  {
    var (r, g, b) := Fractions(c);
    var v := Max3(r, g, b);
    var chroma := v - Min3(r, g, b);
    var h := if v == r then Times(60.0, Divide(g - b, chroma))
             else if v == g then Times(60.0, Plus(Divide(b - r, chroma), 2.0))
             else Times(60.0, Plus(Divide(r - g, chroma), 4.0));
    var s := if v == 0.0 then 0.0 else chroma / v;
    Hsv(h, s * 100.0, v * 100.0)
  }

  /** The source's `rgbToHsv`, which starts its hue at 0 and overwrites it in the
      branch of the channel that attains the maximum. */
  method RgbToHsv(rgb: Rgb) returns (hsv: Hsv)
    ensures hsv == HsvOf(rgb)
    ensures hsv.h.NaN? <==> IsGrey(rgb)
  {
    var (r, g, b) := Fractions(rgb);
    var xMax := Max3(r, g, b);
    var xMin := Min3(r, g, b);
    var v := xMax;
    var c := xMax - xMin;
    var h := Fin(0.0);
    if v == r {
      h := Times(60.0, Divide(g - b, c));
    } else if v == g {
      h := Times(60.0, Plus(Divide(b - r, c), 2.0));
    } else if v == b {
      h := Times(60.0, Plus(Divide(r - g, c), 4.0));
    }
    var s := if v == 0.0 then 0.0 else c / v;
    hsv := Hsv(h, s * 100.0, v * 100.0);
  }

  /** For a colour in 0..255 the value and saturation lie in [0, 100]; the hue is NaN
      exactly for a grey and otherwise lies in [-60, 300], below 0 exactly when red
      attains the maximum and blue exceeds green. */
  lemma HsvOfRange(c: Rgb)
    requires InGamut(c)
    ensures 0.0 <= HsvOf(c).s <= 100.0 && 0.0 <= HsvOf(c).v <= 100.0
    ensures HsvOf(c).h.NaN? <==> IsGrey(c)
    ensures HsvOf(c).h.Fin? ==> -60.0 <= HsvOf(c).h.v <= 300.0
    ensures HsvOf(c).h.Fin? ==> (HsvOf(c).h.v < 0.0 <==> c.r >= c.g && c.r >= c.b && c.g < c.b)
  {
    var (r, g, b) := Fractions(c);
    var v := Max3(r, g, b);
    var chroma := v - Min3(r, g, b);
    if v != 0.0 {
      FractionQuotient(chroma, v);
    }
    if chroma != 0.0 {
      if v == r {
        UnitQuotient(g - b, chroma);
        QuotientSign(g - b, chroma);
      } else if v == g {
        UnitQuotient(b - r, chroma);
      } else {
        UnitQuotient(r - g, chroma);
      }
    }
  }

  // ---------------------------------------------------------------------------
  // HSV to RGB (src/ts/Utils/ColorUtils.ts:138-198)

  /** The channel fractions before the offset `v - c`, for a hue `h6` in sixths of a
      turn, a chroma `c` and a second-largest component `x`: the first of the six
      sectors [0, 1], (1, 2], ..., (5, 6] that holds the hue decides which channel gets
      `c`, which gets `x` and which gets 0. Outside [0, 6] there is none. */
  function SectorChannels(h6: real, c: real, x: real): Option<(real, real, real)> {
    if 0.0 <= h6 <= 1.0 then Some((c, x, 0.0))
    else if 1.0 < h6 <= 2.0 then Some((x, c, 0.0))
    else if 2.0 < h6 <= 3.0 then Some((0.0, c, x))
    else if 3.0 < h6 <= 4.0 then Some((0.0, x, c))
    else if 4.0 < h6 <= 5.0 then Some((x, 0.0, c))
    else if 5.0 < h6 <= 6.0 then Some((c, 0.0, x))
    else None
  }

  /** The chroma of an HSV colour from its saturation and value fractions. */
  function Chroma(v: real, s: real): real {
    v * s
  }

  /** The middle component `x` of the sector triple: the chroma scaled by how far the
      hue is, within its pair of sectors, from the pair's midpoint. */
  function MiddleComponent(c: real, h6: real): real {
    c * (1.0 - Abs(Rem(h6, 2.0) - 1.0))
  }

  /** The channel fractions of a colour given by a hue in sixths of a turn and
      saturation and value fractions, or nothing when the hue is outside [0, 6]. */
  function HsvChannels(h6: real, s: real, v: real): Option<(real, real, real)> {
    var c := Chroma(v, s);
    var m := v - c;
    match SectorChannels(h6, c, MiddleComponent(c, h6))
    case None => None
    case Some(t) => Some((t.0 + m, t.1 + m, t.2 + m))
  }

  /** The RGB form of an HSV colour: each channel fraction is scaled to a byte and
      floored; a NaN hue, or one outside [0, 360], leaves the result black. */
  function RgbOfHsv(c: Hsv): (r: Rgb)
    ensures c.h.NaN? ==> r == Rgb(0, 0, 0)
  {
    match Over(c.h, 60.0)
    case NaN => Rgb(0, 0, 0)
    case Fin(h6) =>
      match HsvChannels(h6, c.s / 100.0, c.v / 100.0)
      case None => Rgb(0, 0, 0)
      case Some((r, g, b)) => Rgb(Scale(r), Scale(g), Scale(b))
  }

  /** The source's `hsvToRgb`: it starts from black, picks an optional `tempRgb` by a
      chain of sector tests, and only when one was picked overwrites the result. */
  method HsvToRgb(hsv: Hsv) returns (result: Rgb)
    ensures result == RgbOfHsv(hsv)
    ensures hsv.h.NaN? || hsv.h.v < 0.0 || hsv.h.v > 360.0 ==> result == Rgb(0, 0, 0)
    ensures HsvInRange(hsv) ==> InGamut(result)
  {
    result := Rgb(0, 0, 0);
    var h6 := Over(hsv.h, 60.0);
    var s := hsv.s / 100.0;
    var v := hsv.v / 100.0;
    var c := Chroma(v, s);
    var tempRgb: Option<(real, real, real)> := None;
    // every comparison with NaN is false, so a NaN hue picks no sector
    if h6.Fin? {
      var x := MiddleComponent(c, h6.v);
      if 0.0 <= h6.v <= 1.0 {
        tempRgb := Some((c, x, 0.0));
      } else if 1.0 < h6.v <= 2.0 {
        tempRgb := Some((x, c, 0.0));
      } else if 2.0 < h6.v <= 3.0 {
        tempRgb := Some((0.0, c, x));
      } else if 3.0 < h6.v <= 4.0 {
        tempRgb := Some((0.0, x, c));
      } else if 4.0 < h6.v <= 5.0 {
        tempRgb := Some((x, 0.0, c));
      } else if 5.0 < h6.v <= 6.0 {
        tempRgb := Some((c, 0.0, x));
      }
      assert tempRgb == SectorChannels(h6.v, c, x);
    }
    if tempRgb.Some? {
      var m := v - c;
      result := Rgb(Scale(tempRgb.value.0 + m), Scale(tempRgb.value.1 + m), Scale(tempRgb.value.2 + m));
    }
    if HsvInRange(hsv) {
      HsvToRgbInGamut(hsv);
    }
  }

  /** For saturation and value fractions in [0, 1] and a hue in [0, 6], every channel
      fraction lies between `v - c` and `v`, the largest is `v` and the smallest is
      `v - c`, where `c = v * s` is the chroma. */
  lemma HsvChannelsRange(h6: real, s: real, v: real)
    requires 0.0 <= h6 <= 6.0 && 0.0 <= s <= 1.0 && 0.0 <= v <= 1.0
    ensures HsvChannels(h6, s, v).Some?
    ensures var (r, g, b) := HsvChannels(h6, s, v).value;
            var m := v - Chroma(v, s);
            0.0 <= m && v <= 1.0 &&
            m <= r <= v && m <= g <= v && m <= b <= v &&
            Max3(r, g, b) == v && Min3(r, g, b) == m
  {
    var c := Chroma(v, s);
    PartOf(v, s);
    assert Mul(v, s) == c;
    var k := 1.0 - Abs(Rem(h6, 2.0) - 1.0);
    PartOf(c, k);
    assert Mul(c, k) == MiddleComponent(c, h6);
  }

  /** An HSV colour within its documented domain converts to channels in 0..255. */
  lemma HsvToRgbInGamut(c: Hsv)
    requires HsvInRange(c)
    ensures InGamut(RgbOfHsv(c))
  {
    if c.h.Fin? {
      HsvChannelsRange(c.h.v / 60.0, c.s / 100.0, c.v / 100.0);
    }
  }

  // ---------------------------------------------------------------------------
  // RGB to HSV and back

  /** Within a pair of sectors the scaling of the middle component is the distance
      of the hue from the pair's boundary between its two sectors. */
  lemma MiddleFactor(q: real, base: int)
    requires -1.0 <= q <= 1.0 && (base == 0 || base == 2 || base == 4)
    requires base == 0 ==> q >= 0.0
    ensures 1.0 - Abs(Rem(base as real + q, 2.0) - 1.0) == Abs(q)
  {
    if q >= 0.0 {
      RemTwo(base as real + q, base / 2);
    } else {
      RemTwo(base as real + q, base / 2 - 1);
    }
  }

  /** A chroma `d` times the magnitude of `num / d` is the magnitude of `num`. */
  lemma ChromaTimesQuotient(num: real, d: real)
    requires d > 0.0
    ensures Mul(d, Abs(num / d)) == Abs(num)
  {
    QuotientSign(num, d);
    if num >= 0.0 {
      CancelQuotient(num, d);
    } else {
      CancelQuotient(-num, d);
      assert (-num) / d == -(num / d);
    }
  }

  /** On a hue `base + num / d` the middle component of chroma `d` is `|num|`. */
  lemma MiddleOfHue(num: real, d: real, base: int)
    requires d > 0.0 && -d <= num <= d && (base == 0 || base == 2 || base == 4)
    requires base == 0 ==> num >= 0.0
    ensures MiddleComponent(d, base as real + num / d) == Abs(num)
  {
    var q := num / d;
    UnitQuotient(num, d);
    QuotientSign(num, d);
    MiddleFactor(q, base);
    MiddleComponentOf(d, base as real + q, Abs(q));
    ChromaTimesQuotient(num, d);
  }

  lemma MiddleComponentOf(c: real, h6: real, f: real)
    requires 1.0 - Abs(Rem(h6, 2.0) - 1.0) == f
    ensures MiddleComponent(c, h6) == Mul(c, f)
  {
  }

  /** `HsvChannels` once its chroma and middle component are known. */
  lemma HsvChannelsOf(h6: real, s: real, v: real, c: real, x: real)
    requires Chroma(v, s) == c && MiddleComponent(c, h6) == x
    requires SectorChannels(h6, c, x).Some?
    ensures var t := SectorChannels(h6, c, x).value;
            HsvChannels(h6, s, v) == Some((t.0 + (v - c), t.1 + (v - c), t.2 + (v - c)))
  {
  }

  /** The sector a chromatic colour's hue falls in puts the chroma on its largest
      channel, `|num|` on the channel in between and 0 on the smallest, so that adding
      the smallest fraction back restores every channel. The hue is `base + q`, where
      `q` stands for `num / d` and is known only through how it compares with -1, 0
      and 1. */
  lemma SectorOfHue(r: real, g: real, b: real, q: real)
    requires Max3(r, g, b) != Min3(r, g, b)
    requires var d, num := Max3(r, g, b) - Min3(r, g, b), HueNumerator(r, g, b);
             -1.0 <= q <= 1.0 && (q < 1.0 <==> num < d) && (q > -1.0 <==> num > -d) &&
             (q >= 0.0 <==> num >= 0.0) && (q == 0.0 <==> num == 0.0)
    requires HueBase(r, g, b) == 0 ==> q >= 0.0
    ensures var v, d := Max3(r, g, b), Max3(r, g, b) - Min3(r, g, b);
            var t := SectorChannels(HueBase(r, g, b) as real + q, d, Abs(HueNumerator(r, g, b)));
            t.Some? && (t.value.0 + (v - d), t.value.1 + (v - d), t.value.2 + (v - d)) == (r, g, b)
  {
  }

  /** The chroma of a value `v` and a saturation `d / v` is `d`. */
  lemma ChromaOfRatio(v: real, d: real)
    requires v != 0.0
    ensures Chroma(v, d / v) == d
  {
    CancelQuotient(d, v);
    assert Mul(v, d / v) == Chroma(v, d / v);
  }

  /** Channel fractions of a chromatic colour with a non-negative hue are recovered
      exactly from its hue, saturation and value. */
  lemma HsvChannelsRoundTrip(r: real, g: real, b: real)
    requires Max3(r, g, b) != Min3(r, g, b) && Max3(r, g, b) > 0.0
    requires HueSixths(r, g, b) >= 0.0
    ensures var v := Max3(r, g, b);
            HsvChannels(HueSixths(r, g, b), (v - Min3(r, g, b)) / v, v) == Some((r, g, b))
  {
    var v := Max3(r, g, b);
    var d := v - Min3(r, g, b);
    var num, base := HueNumerator(r, g, b), HueBase(r, g, b);
    ChromaOfRatio(v, d);
    QuotientCompare(num, d);
    UnitQuotient(num, d);
    MiddleOfHue(num, d, base);
    SectorOfHue(r, g, b, num / d);
    HsvChannelsOf(HueSixths(r, g, b), d / v, v, d, Abs(num));
  }

  /** The HSV form of a chromatic colour in 0..255, spelled out through its hue in
      sixths of a turn. */
  lemma HsvOfChromatic(c: Rgb)
    requires InGamut(c) && HsvOf(c).h.Fin?
    ensures var (r, g, b) := Fractions(c);
            var v := Max3(r, g, b);
            Max3(r, g, b) != Min3(r, g, b) && v > 0.0 &&
            HsvOf(c) == Hsv(Fin(60.0 * HueSixths(r, g, b)), (v - Min3(r, g, b)) / v * 100.0, v * 100.0)
  {
  }

  /** An HSV colour whose channel fractions are known converts to their scaled bytes. */
  lemma RgbOfHsvChannels(h6: real, s: real, v: real, r: real, g: real, b: real)
    requires HsvChannels(h6, s, v) == Some((r, g, b))
    ensures RgbOfHsv(Hsv(Fin(60.0 * h6), s * 100.0, v * 100.0)) == Rgb(Scale(r), Scale(g), Scale(b))
  {
    assert Over(Fin(60.0 * h6), 60.0) == Fin(h6);
    assert s * 100.0 / 100.0 == s && v * 100.0 / 100.0 == v;
  }

  /** Converting a chromatic colour in 0..255 to HSV and back gives the colour itself
      when its HSV hue is non-negative (exact arithmetic; the source works on doubles). */
  lemma HsvRoundTrip(c: Rgb)
    requires InGamut(c) && HsvOf(c).h.Fin? && HsvOf(c).h.v >= 0.0
    ensures RgbOfHsv(HsvOf(c)) == c
  {
    var (r, g, b) := Fractions(c);
    var v := Max3(r, g, b);
    var h6 := HueSixths(r, g, b);
    var s := (v - Min3(r, g, b)) / v;
    HsvOfChromatic(c);
    assert HsvOf(c) == Hsv(Fin(60.0 * h6), s * 100.0, v * 100.0);
    assert h6 >= 0.0;
    HsvChannelsRoundTrip(r, g, b);
    RgbOfHsvChannels(h6, s, v, r, g, b);
    ScaleOfFractions(c);
  }

  /** The whole story of an RGB colour in 0..255 sent to HSV and back: it comes back
      unchanged, except that a grey (NaN hue) and a colour whose red is largest and
      whose blue exceeds its green (negative hue, which no sector holds) come back
      black. */
  lemma HsvRoundTripCases(c: Rgb)
    requires InGamut(c)
    ensures RgbOfHsv(HsvOf(c)) ==
            if IsGrey(c) || (c.r >= c.g && c.r >= c.b && c.g < c.b) then Rgb(0, 0, 0) else c
  {
    HsvOfRange(c);
    if HsvOf(c).h.Fin? && HsvOf(c).h.v >= 0.0 {
      HsvRoundTrip(c);
    }
  }

  // ---------------------------------------------------------------------------
  // HSL to and from HSV (src/ts/Utils/ColorUtils.ts:90-136)

  /** The source's `hslToHsv`: the value is the lightness raised by the saturation's
      share of the distance to the nearer of black and white, and the saturation is
      `2 * (1 - l / v)`, or 0 for a black value. The hue is copied. */
  function HslToHsv(c: Hsl): (r: Hsv)
    ensures r.h == c.h
    ensures c.s == 0.0 ==> r.v == c.l && r.s == 0.0
  {
    var l := c.l / 100.0;
    var sl := c.s / 100.0;
    var v := l + sl * Min(l, 1.0 - l);
    var sv := if v == 0.0 then 0.0 else 2.0 * (1.0 - l / v);
    Hsv(c.h, sv * 100.0, v * 100.0)
  }

  /** The source's `hsvToHsl`: the lightness is `v * (1 - s / 2)`, and the saturation
      is the distance from the lightness up to the value over the distance from the
      lightness to the nearer of black and white, or 0 at black and at white. The hue
      is copied. */
  function HsvToHsl(c: Hsv): (r: Hsl)
    ensures r.h == c.h
    ensures c.s == 0.0 ==> r.l == c.v && r.s == 0.0
  {
    var v := c.v / 100.0;
    var sv := c.s / 100.0;
    var l := v * (1.0 - sv / 2.0);
    var sl := if l == 0.0 || l == 1.0 then 0.0 else (v - l) / Min(l, 1.0 - l);
    Hsl(c.h, sl * 100.0, l * 100.0)
  }

  /** The fractions behind `HslHsvRoundTrip`: from a lightness strictly between 0
      and 1 and a saturation in [0, 1], the HSV value is positive, and the lightness
      and saturation computed back from it are the ones started from. */
  lemma HslHsvFractions(l: real, sl: real)
    requires 0.0 < l < 1.0 && 0.0 <= sl <= 1.0
    ensures var v := l + sl * Min(l, 1.0 - l);
            var sv := 2.0 * (1.0 - l / v);
            v > 0.0 && v * (1.0 - sv / 2.0) == l && (v - l) / Min(l, 1.0 - l) == sl
  {
    var near := Min(l, 1.0 - l);
    var v := l + sl * near;
    PartOf(near, sl);
    assert Mul(near, sl) == sl * near;
    var sv := 2.0 * (1.0 - l / v);
    CancelQuotient(l, v);
    assert Mul(v, l / v) == v * (1.0 - sv / 2.0);
    QuotientOf(sl * near, near, sl);
  }

  /** Converting HSL to HSV and back gives the colour itself when its lightness is
      strictly between black and white and its saturation lies in [0, 100]. */
  lemma HslHsvRoundTrip(c: Hsl)
    requires 0.0 <= c.s <= 100.0 && 0.0 < c.l < 100.0
    ensures HsvToHsl(HslToHsv(c)) == c
  {
    var l, sl := c.l / 100.0, c.s / 100.0;
    var v := l + sl * Min(l, 1.0 - l);
    var sv := 2.0 * (1.0 - l / v);
    HslHsvFractions(l, sl);
    var m := HslToHsv(c);
    assert m == Hsv(c.h, sv * 100.0, v * 100.0);
    assert m.v / 100.0 == v && m.s / 100.0 == sv;
  }

  /** The HSL lightness of a positive value `v` and a saturation in [0, 1] lies
      between `v / 2` and `v`; it is 1 only for full value and no saturation. */
  lemma LightnessOfValue(v: real, sv: real)
    requires 0.0 < v <= 1.0 && 0.0 <= sv <= 1.0
    ensures v / 2.0 <= v * (1.0 - sv / 2.0) <= v
    ensures v * (1.0 - sv / 2.0) == 1.0 ==> v == 1.0 && sv == 0.0
  {
    var l := v * (1.0 - sv / 2.0);
    PartOf(v / 2.0, sv);
    assert Mul(v / 2.0, sv) == v - l;
  }

  /** Going back from HSL, the value is the lightness plus the saturation's share of
      the distance to the nearer of black and white. */
  lemma ValueOfLightness(v: real, l: real)
    requires 0.0 < l < 1.0
    ensures var near := Min(l, 1.0 - l);
            l + (v - l) / near * near == v
  {
    var near := Min(l, 1.0 - l);
    CancelQuotient(v - l, near);
  }

  /** Converting HSV to HSL and back gives the colour itself when its value is
      positive and at most 100 and its saturation lies in [0, 100]. */
  lemma HsvHslRoundTrip(c: Hsv)
    requires 0.0 <= c.s <= 100.0 && 0.0 < c.v <= 100.0
    ensures HslToHsv(HsvToHsl(c)) == c
  {
    var v := c.v / 100.0;
    var sv := c.s / 100.0;
    var l := v * (1.0 - sv / 2.0);
    LightnessOfValue(v, sv);
    if l != 1.0 {
      ValueOfLightness(v, l);
    }
    // and l / v = 1 - s / 2
    QuotientOf(l, v, 1.0 - sv / 2.0);
    var sl := if l == 1.0 then 0.0 else (v - l) / Min(l, 1.0 - l);
    var m := HsvToHsl(c);
    assert m == Hsl(c.h, sl * 100.0, l * 100.0);
    assert m.l / 100.0 == l && m.s / 100.0 == sl;
  }
}
