/** The RGB and HSL conversions of `ColorUtils` (src/ts/Utils/ColorUtils.ts): RGB to
    HSL, and HSL to RGB through the `hue2rgb` helper.

    The conversions that the source writes as a sequence of assignments to local
    state (`rgbToHsl`, `hue2rgb`, `hslToRgb`) are methods here, each proved equal to a
    specification function that the rest of the model (and every lemma) uses.
    Arithmetic is exact over `real`. */
module ColorConversions {
  import opened JsNumber
  import opened ColorTypes
  import opened RealFacts

  /** `Math.floor(x * 255)`: a channel fraction scaled to a byte. */
  function Scale(x: real): (n: int)
    ensures 0.0 <= x <= 1.0 ==> 0 <= n <= 255
  {
    (x * 255.0).Floor
  }

  /** Scaling back a channel that was divided by 255 gives the channel itself. */
  lemma ScaleOfChannel(n: int)
    ensures Scale(n as real / 255.0) == n
  {
    assert n as real / 255.0 * 255.0 == n as real;
  }

  /** The channel fractions of an RGB colour. */
  function Fractions(c: Rgb): (real, real, real) {
    (c.r as real / 255.0, c.g as real / 255.0, c.b as real / 255.0)
  }

  /** Scaling back the fractions of a colour gives the colour. */
  lemma ScaleOfFractions(c: Rgb)
    ensures var (r, g, b) := Fractions(c); Rgb(Scale(r), Scale(g), Scale(b)) == c
  {
    ScaleOfChannel(c.r);
    ScaleOfChannel(c.g);
    ScaleOfChannel(c.b);
  }

  // ---------------------------------------------------------------------------
  // RGB to HSL (src/ts/Utils/ColorUtils.ts:4-38)

  /** The first of red, green and blue that attains the maximum decides the hue's
      starting sixth: 0, 2 or 4. */
  function HueBase(r: real, g: real, b: real): int {
    var v := Max3(r, g, b);
    if v == r then 0 else if v == g then 2 else 4
  }

  /** The difference of the two other channels, in the order the hue formula takes
      them: green minus blue, blue minus red, or red minus green. */
  function HueNumerator(r: real, g: real, b: real): real {
    var v := Max3(r, g, b);
    if v == r then g - b else if v == g then b - r else r - g
  }

  /** The hue of a chromatic colour in sixths of a turn, before any wrapping: the
      formula `rgbToHsl` and `rgbToHsv` share. */
  function HueSixths(r: real, g: real, b: real): real
    requires Max3(r, g, b) != Min3(r, g, b)
  {
    HueBase(r, g, b) as real + HueNumerator(r, g, b) / (Max3(r, g, b) - Min3(r, g, b))
  }

  /** The HSL form of an RGB colour: lightness is the mean of the largest and
      smallest channel fraction; for a chromatic colour the saturation uses one of
      two denominators depending on whether the lightness is below one half, and the
      hue is chosen by the first of red, green and blue that attains the maximum,
      then scaled to degrees and brought into [0, 360). */
  function HslOf(c: Rgb): (r: Hsl)
    requires HslDefined(c)
    ensures r.h.Fin?
    ensures IsGrey(c) ==> r.h == Fin(0.0) && r.s == 0.0
  {
    var (r, g, b) := Fractions(c);
    var max, min := Max3(r, g, b), Min3(r, g, b);
    var l := (max + min) / 2.0;
    if max == min then Hsl(Fin(0.0), 0.0, l * 100.0)
    else
      var d := max - min;
      var s := if l < 0.5 then d / (max + min) else d / (2.0 - max - min);
      var h := (if r == max then (g - b) / d
                else if g == max then 2.0 + (b - r) / d
                else 4.0 + (r - g) / d) * 60.0;
      Hsl(Fin(if h < 0.0 then h + 360.0 else h), s * 100.0, l * 100.0)
  }

  /** The saturation denominator of `rgbToHsl` is non-zero: the colour is a grey, or
      the sum of the largest and smallest fraction is neither 0 (below half
      lightness) nor 2 (from half lightness up). Elsewhere the source divides by zero
      and yields an infinite saturation, which the model has no value for. */
  predicate HslDefined(c: Rgb) {
    var (r, g, b) := Fractions(c);
    var max, min := Max3(r, g, b), Min3(r, g, b);
    max != min ==> if (max + min) / 2.0 < 0.5 then max + min != 0.0 else 2.0 - max - min != 0.0
  }

  /** Every colour of the documented domain has a finite HSL saturation. */
  lemma GamutHslDefined(c: Rgb)
    requires InGamut(c)
    ensures HslDefined(c)
  {
  }

  /** The source's `rgbToHsl`, assignment by assignment on its local record. */
  method RgbToHsl(color: Rgb) returns (res: Hsl)
    requires HslDefined(color)
    ensures res == HslOf(color)
    ensures InGamut(color) ==> res.h.Fin? && 0.0 <= res.h.v < 360.0
    ensures InGamut(color) ==> 0.0 <= res.s <= 100.0 && 0.0 <= res.l <= 100.0
    ensures IsGrey(color) ==> res.h == Fin(0.0) && res.s == 0.0
  {
    var r1 := color.r as real / 255.0;
    var g1 := color.g as real / 255.0;
    var b1 := color.b as real / 255.0;
    var max := Max3(r1, g1, b1);
    var min := Min3(r1, g1, b1);
    assert (r1, g1, b1) == Fractions(color);
    var h, l, s := 0.0, (max + min) / 2.0, 0.0;
    if max != min {
      s := if l < 0.5 then (max - min) / (max + min) else (max - min) / (2.0 - max - min);
      h := if r1 == max then (g1 - b1) / (max - min)
           else if g1 == max then 2.0 + (b1 - r1) / (max - min)
           else 4.0 + (r1 - g1) / (max - min);
    }
    l := l * 100.0;
    s := s * 100.0;
    h := h * 60.0;
    if h < 0.0 {
      h := h + 360.0;
    }
    res := Hsl(Fin(h), s, l);
    assert res == HslOf(color);
    if InGamut(color) {
      HslOfRange(color);
    }
  }

  /** For an RGB colour in 0..255 the hue is a number in [0, 360), saturation and
      lightness lie in [0, 100], and a grey has hue and saturation 0. */
  lemma HslOfRange(c: Rgb)
    requires InGamut(c)
    ensures HslDefined(c)
    ensures HslOf(c).h.Fin? && 0.0 <= HslOf(c).h.v < 360.0
    ensures 0.0 <= HslOf(c).s <= 100.0 && 0.0 <= HslOf(c).l <= 100.0
    ensures IsGrey(c) <==> HslOf(c).h == Fin(0.0) && HslOf(c).s == 0.0
  {
    GamutHslDefined(c);
    var (r, g, b) := Fractions(c);
    var max, min := Max3(r, g, b), Min3(r, g, b);
    var l := (max + min) / 2.0;
    if max != min {
      var d := max - min;
      var s := if l < 0.5 then d / (max + min) else d / (2.0 - max - min);
      var h := (if r == max then (g - b) / d
                else if g == max then 2.0 + (b - r) / d
                else 4.0 + (r - g) / d) * 60.0;
      assert HslOf(c) == Hsl(Fin(if h < 0.0 then h + 360.0 else h), s * 100.0, l * 100.0);
      HslSaturationRange(max, min);
      HslHueRange(r, g, b);
    }
  }

  /** The saturation fraction of a chromatic colour lies in (0, 1]. */
  lemma HslSaturationRange(max: real, min: real)
    requires 0.0 <= min < max <= 1.0
    ensures var l, d := (max + min) / 2.0, max - min;
            var s := if l < 0.5 then d / (max + min) else d / (2.0 - max - min);
            0.0 < s <= 1.0
  {
    var d := max - min;
    if (max + min) / 2.0 < 0.5 {
      FractionQuotient(d, max + min);
      PositiveQuotient(d, max + min);
    } else {
      FractionQuotient(d, 2.0 - max - min);
      PositiveQuotient(d, 2.0 - max - min);
    }
  }

  /** The unwrapped hue of a chromatic colour lies in [-60, 300]. */
  lemma HslHueRange(r: real, g: real, b: real)
    requires 0.0 <= r <= 1.0 && 0.0 <= g <= 1.0 && 0.0 <= b <= 1.0
    requires Max3(r, g, b) != Min3(r, g, b)
    ensures var max, d := Max3(r, g, b), Max3(r, g, b) - Min3(r, g, b);
            var h := (if r == max then (g - b) / d
                      else if g == max then 2.0 + (b - r) / d
                      else 4.0 + (r - g) / d) * 60.0;
            -60.0 <= h <= 300.0
  {
    var max, d := Max3(r, g, b), Max3(r, g, b) - Min3(r, g, b);
    if r == max {
      UnitQuotient(g - b, d);
    } else if g == max {
      UnitQuotient(b - r, d);
    } else {
      UnitQuotient(r - g, d);
    }
  }

  // ---------------------------------------------------------------------------
  // HSL to RGB (src/ts/Utils/ColorUtils.ts:48-77, 315-339)

  /** The hue offset brought back into [0, 1] by adding or subtracting one turn. */
  function WrapUnit(t: real): (w: real)
    ensures -1.0 <= t <= 2.0 ==> 0.0 <= w <= 1.0
  {
    if t < 0.0 then t + 1.0 else if t > 1.0 then t - 1.0 else t
  }

  /** One channel fraction of an HSL colour from `p`, `q` and a hue offset in turns,
      following the piecewise HSL-to-RGB definition of section 4.2.4 of CSS Color
      Module Level 3: rising from `p` to `q` on the first sixth of the turn, `q` up to
      one half, falling back to `p` up to two thirds, and `p` after that. A NaN offset
      fails every comparison and gives `p`. */
  function HueToChannel(p: real, q: real, t: Num): (r: real)
    ensures t.NaN? || p == q ==> r == p
  {
    match t
    case NaN => p
    case Fin(v) =>
      var w := WrapUnit(v);
      if w < 1.0 / 6.0 then p + (q - p) * 6.0 * w
      else if w < 1.0 / 2.0 then q
      else if w < 2.0 / 3.0 then p + (q - p) * (2.0 / 3.0 - w) * 6.0
      else p
  }

  /** The source's `hue2rgb`, which reassigns its local `tCalc`. */
  method Hue2Rgb(p: real, q: real, t: Num) returns (x: real)
    ensures x == HueToChannel(p, q, t)
    ensures t.NaN? || -1.0 <= t.v <= 2.0 ==> Min(p, q) <= x <= Max(p, q)
  {
    if t.NaN? || -1.0 <= t.v <= 2.0 {
      HueToChannelBetween(p, q, t);
    }
    if t.NaN? {
      // every comparison with NaN is false, so the function falls through to `p`
      return p;
    }
    var tCalc := t.v;
    if tCalc < 0.0 {
      tCalc := tCalc + 1.0;
    }
    if tCalc > 1.0 {
      tCalc := tCalc - 1.0;
    }
    assert tCalc == WrapUnit(t.v);
    if tCalc < 1.0 / 6.0 {
      return p + (q - p) * 6.0 * tCalc;
    }
    if tCalc < 1.0 / 2.0 {
      return q;
    }
    if tCalc < 2.0 / 3.0 {
      return p + (q - p) * (2.0 / 3.0 - tCalc) * 6.0;
    }
    return p;
  }

  /** For a hue offset in [-1, 2] (or NaN) a channel fraction lies between `p` and `q`. */
  lemma HueToChannelBetween(p: real, q: real, t: Num)
    requires t.NaN? || -1.0 <= t.v <= 2.0
    ensures Min(p, q) <= HueToChannel(p, q, t) <= Max(p, q)
  {
    if t.Fin? {
      var w := WrapUnit(t.v);
      if w < 1.0 / 6.0 {
        Interpolate(p, q, 6.0 * w);
        assert (q - p) * 6.0 * w == (q - p) * (6.0 * w);
      } else if 1.0 / 2.0 <= w < 2.0 / 3.0 {
        Interpolate(p, q, (2.0 / 3.0 - w) * 6.0);
        assert (q - p) * (2.0 / 3.0 - w) * 6.0 == (q - p) * ((2.0 / 3.0 - w) * 6.0);
      }
    }
  }

  /** Moving a fraction `k` in [0, 1] of the way from `p` to `q` stays between them. */
  lemma Interpolate(p: real, q: real, k: real)
    requires 0.0 <= k <= 1.0
    ensures Min(p, q) <= p + (q - p) * k <= Max(p, q)
  {
    if q >= p {
      PartOf(q - p, k);
    } else {
      NegativePartOf(q - p, k);
    }
    assert Mul(q - p, k) == (q - p) * k;
  }

  /** The `q` of the HSL-to-RGB conversion, from lightness and saturation fractions. */
  function HslQ(l: real, s: real): real {
    if l < 0.5 then l * (1.0 + s) else l + s - l * s
  }

  /** The RGB form of an HSL colour: an achromatic colour (saturation 0) has every
      channel at the lightness; otherwise each channel is `HueToChannel` at the hue
      plus a third of a turn (red), the hue (green) and the hue minus a third (blue).
      Each fraction is then scaled to a byte and floored. */
  function RgbOfHsl(c: Hsl): (r: Rgb)
    ensures c.s == 0.0 ==> IsGrey(r)
  {
    var h := Over(c.h, 360.0);
    var s := c.s / 100.0;
    var l := c.l / 100.0;
    if s == 0.0 then Rgb(Scale(l), Scale(l), Scale(l))
    else
      var q := HslQ(l, s);
      var p := 2.0 * l - q;
      Rgb(Scale(HueToChannel(p, q, Plus(h, 1.0 / 3.0))),
          Scale(HueToChannel(p, q, h)),
          Scale(HueToChannel(p, q, Plus(h, -1.0 / 3.0))))
  }

  /** The source's `hslToRgb`: it fills its result record with channel fractions,
      then floors each of them after scaling. */
  method HslToRgb(hsl: Hsl) returns (result: Rgb)
    ensures result == RgbOfHsl(hsl)
    ensures hsl.s == 0.0 ==> var k := Scale(hsl.l / 100.0); result == Rgb(k, k, k)
    ensures HslInRange(hsl) ==> InGamut(result)
  {
    var h := Over(hsl.h, 360.0);
    var l := hsl.l / 100.0;
    var s := hsl.s / 100.0;
    var r, g, b := 0.0, 0.0, 0.0;
    if s == 0.0 {
      b := l;
      g := l;
      r := l;
    } else {
      var q := if l < 0.5 then l * (1.0 + s) else l + s - l * s;
      assert q == HslQ(l, s);
      var p := 2.0 * l - q;
      r := Hue2Rgb(p, q, Plus(h, 1.0 / 3.0));
      g := Hue2Rgb(p, q, h);
      b := Hue2Rgb(p, q, Plus(h, -1.0 / 3.0));
      assert Rgb(Scale(r), Scale(g), Scale(b)) == RgbOfHsl(hsl);
    }
    result := Rgb(Scale(r), Scale(g), Scale(b));
    assert result == RgbOfHsl(hsl);
    if HslInRange(hsl) {
      HslToRgbInGamut(hsl);
    }
  }

  /** For lightness and saturation fractions in [0, 1], `p` and `q` lie in [0, 1]. */
  lemma HslPQRange(l: real, s: real)
    requires 0.0 <= l <= 1.0 && 0.0 <= s <= 1.0
    ensures 0.0 <= HslQ(l, s) <= 1.0
    ensures 0.0 <= 2.0 * l - HslQ(l, s) <= 1.0
  {
    PartOf(l, s);
    assert Mul(l, s) == l * s;
    if l >= 0.5 {
      PartOf(1.0 - l, s);
      assert Mul(1.0 - l, s) == s - l * s;
    } else {
      assert l * (1.0 + s) == l + l * s;
    }
  }

  /** An HSL colour within its documented domain converts to channels in 0..255. */
  lemma HslToRgbInGamut(c: Hsl)
    requires HslInRange(c)
    ensures InGamut(RgbOfHsl(c))
  {
    var h := Over(c.h, 360.0);
    var s := c.s / 100.0;
    var l := c.l / 100.0;
    if s != 0.0 {
      var q := HslQ(l, s);
      var p := 2.0 * l - q;
      HslPQRange(l, s);
      HueToChannelBetween(p, q, Plus(h, 1.0 / 3.0));
      HueToChannelBetween(p, q, h);
      HueToChannelBetween(p, q, Plus(h, -1.0 / 3.0));
    }
  }

  /** A grey survives the trip to HSL and back unchanged. */
  lemma GreyHslRoundTrip(c: Rgb)
    requires InGamut(c) && IsGrey(c)
    ensures RgbOfHsl(HslOf(c)) == c
  {
    var l := (c.r as real / 255.0 + c.r as real / 255.0) / 2.0 * 100.0;
    assert HslOf(c) == Hsl(Fin(0.0), 0.0, l);
    assert l / 100.0 == c.r as real / 255.0;
    ScaleOfChannel(c.r);
  }

  // ---------------------------------------------------------------------------
  // RGB to HSL and back

  /** The hue of a chromatic colour in sixths of a turn, brought into [0, 6) as
      `rgbToHsl` does by adding a full turn to a negative hue. */
  function WrappedSixths(r: real, g: real, b: real): real
    requires Max3(r, g, b) != Min3(r, g, b)
  {
    var h6 := HueSixths(r, g, b);
    if h6 < 0.0 then h6 + 6.0 else h6
  }

  /** On the first sixth of the turn a channel rises from `p` by the fraction `f` of
      the way to `q` (both ends included). */
  lemma ChannelRising(p: real, q: real, t: real, f: real)
    requires 0.0 <= f <= 1.0 && WrapUnit(t) == f / 6.0
    ensures HueToChannel(p, q, Fin(t)) == p + Mul(q - p, f)
  {
    assert (q - p) * 6.0 * (f / 6.0) == (q - p) * f;
  }

  /** From one sixth up to one half of the turn a channel is at `q`. */
  lemma ChannelTop(p: real, q: real, t: real)
    requires 1.0 / 6.0 <= WrapUnit(t) <= 1.0 / 2.0
    ensures HueToChannel(p, q, Fin(t)) == q
  {
  }

  /** From one half to two thirds of the turn a channel falls back towards `p`; at
      `(4 - f) / 6` it is the fraction `f` of the way from `p` to `q`. */
  lemma ChannelFalling(p: real, q: real, t: real, f: real)
    requires 0.0 <= f <= 1.0 && WrapUnit(t) == (4.0 - f) / 6.0
    ensures HueToChannel(p, q, Fin(t)) == p + Mul(q - p, f)
  {
    assert (2.0 / 3.0 - (4.0 - f) / 6.0) * 6.0 == f;
    assert (q - p) * (2.0 / 3.0 - (4.0 - f) / 6.0) * 6.0 == (q - p) * f;
  }

  /** From two thirds of the turn on a channel is at `p`. */
  lemma ChannelBottom(p: real, q: real, t: real)
    requires 2.0 / 3.0 <= WrapUnit(t)
    ensures HueToChannel(p, q, Fin(t)) == p
  {
  }

  /** The channels HSL gives back at the hue `u` (in sixths of a turn), from `p` and
      `q`: red a third of a turn ahead, green at the hue, blue a third behind. */
  predicate ChannelsAt(p: real, q: real, u: real, r: real, g: real, b: real) {
    HueToChannel(p, q, Fin(u / 6.0 + 1.0 / 3.0)) == r &&
    HueToChannel(p, q, Fin(u / 6.0)) == g &&
    HueToChannel(p, q, Fin(u / 6.0 + -1.0 / 3.0)) == b
  }

  /** Red largest, green at least blue: the hue is `f` in [0, 1]. */
  lemma SectorRedGreen(mn: real, mx: real, f: real, r: real, g: real, b: real)
    requires mn < mx && 0.0 <= f <= 1.0
    requires r == mx && g == mn + Mul(mx - mn, f) && b == mn
    ensures ChannelsAt(mn, mx, f, r, g, b)
  {
    ChannelTop(mn, mx, f / 6.0 + 1.0 / 3.0);
    ChannelRising(mn, mx, f / 6.0, f);
    ChannelBottom(mn, mx, f / 6.0 + -1.0 / 3.0);
  }

  /** Red largest, blue above green: the hue is `6 - f` for `f` in (0, 1]. */
  lemma SectorRedBlue(mn: real, mx: real, f: real, r: real, g: real, b: real)
    requires mn < mx && 0.0 < f <= 1.0
    requires r == mx && g == mn && b == mn + Mul(mx - mn, f)
    ensures ChannelsAt(mn, mx, 6.0 - f, r, g, b)
  {
    var u := 6.0 - f;
    ChannelTop(mn, mx, u / 6.0 + 1.0 / 3.0);
    ChannelBottom(mn, mx, u / 6.0);
    ChannelFalling(mn, mx, u / 6.0 + -1.0 / 3.0, f);
  }

  /** Green largest, blue at least red: the hue is `2 + f` for `f` in [0, 1]. */
  lemma SectorGreenBlue(mn: real, mx: real, f: real, r: real, g: real, b: real)
    requires mn < mx && 0.0 <= f <= 1.0
    requires r == mn && g == mx && b == mn + Mul(mx - mn, f)
    ensures ChannelsAt(mn, mx, 2.0 + f, r, g, b)
  {
    var u := 2.0 + f;
    ChannelBottom(mn, mx, u / 6.0 + 1.0 / 3.0);
    ChannelTop(mn, mx, u / 6.0);
    ChannelRising(mn, mx, u / 6.0 + -1.0 / 3.0, f);
  }

  /** Green largest, red above blue: the hue is `2 - f` for `f` in (0, 1]. */
  lemma SectorGreenRed(mn: real, mx: real, f: real, r: real, g: real, b: real)
    requires mn < mx && 0.0 < f <= 1.0
    requires r == mn + Mul(mx - mn, f) && g == mx && b == mn
    ensures ChannelsAt(mn, mx, 2.0 - f, r, g, b)
  {
    var u := 2.0 - f;
    ChannelFalling(mn, mx, u / 6.0 + 1.0 / 3.0, f);
    ChannelTop(mn, mx, u / 6.0);
    ChannelBottom(mn, mx, u / 6.0 + -1.0 / 3.0);
  }

  /** Blue largest, red at least green: the hue is `4 + f` for `f` in [0, 1]. At
      `f = 0` the red offset is exactly one turn, which is not wrapped and gives `p`. */
  lemma SectorBlueRed(mn: real, mx: real, f: real, r: real, g: real, b: real)
    requires mn < mx && 0.0 <= f <= 1.0
    requires r == mn + Mul(mx - mn, f) && g == mn && b == mx
    ensures ChannelsAt(mn, mx, 4.0 + f, r, g, b)
  {
    var u := 4.0 + f;
    if f == 0.0 {
      ChannelBottom(mn, mx, u / 6.0 + 1.0 / 3.0);
    } else {
      ChannelRising(mn, mx, u / 6.0 + 1.0 / 3.0, f);
    }
    ChannelBottom(mn, mx, u / 6.0);
    ChannelTop(mn, mx, u / 6.0 + -1.0 / 3.0);
  }

  /** Blue largest, green above red: the hue is `4 - f` for `f` in (0, 1]. */
  lemma SectorBlueGreen(mn: real, mx: real, f: real, r: real, g: real, b: real)
    requires mn < mx && 0.0 < f <= 1.0
    requires r == mn && g == mn + Mul(mx - mn, f) && b == mx
    ensures ChannelsAt(mn, mx, 4.0 - f, r, g, b)
  {
    var u := 4.0 - f;
    ChannelBottom(mn, mx, u / 6.0 + 1.0 / 3.0);
    ChannelFalling(mn, mx, u / 6.0, f);
    ChannelTop(mn, mx, u / 6.0 + -1.0 / 3.0);
  }

  /** The channel fractions of a chromatic colour are recovered from its wrapped hue,
      with `p` the smallest and `q` the largest of them. */
  lemma HslChannelsRoundTrip(r: real, g: real, b: real)
    requires Max3(r, g, b) != Min3(r, g, b)
    ensures ChannelsAt(Min3(r, g, b), Max3(r, g, b), WrappedSixths(r, g, b), r, g, b)
  {
    if HueBase(r, g, b) == 0 {
      RedLargest(r, g, b);
    } else if HueBase(r, g, b) == 2 {
      GreenLargest(r, g, b);
    } else {
      BlueLargest(r, g, b);
    }
  }

  lemma RedLargest(r: real, g: real, b: real)
    requires Max3(r, g, b) != Min3(r, g, b) && HueBase(r, g, b) == 0
    ensures ChannelsAt(Min3(r, g, b), Max3(r, g, b), WrappedSixths(r, g, b), r, g, b)
  {
    var mx, mn := Max3(r, g, b), Min3(r, g, b);
    var f := HueNumerator(r, g, b) / (mx - mn);
    SignedFraction(HueNumerator(r, g, b), mx - mn);
    if f >= 0.0 {
      SectorRedGreen(mn, mx, f, r, g, b);
    } else {
      assert WrappedSixths(r, g, b) == 6.0 - -f;
      SectorRedBlue(mn, mx, -f, r, g, b);
    }
  }

  lemma GreenLargest(r: real, g: real, b: real)
    requires Max3(r, g, b) != Min3(r, g, b) && HueBase(r, g, b) == 2
    ensures ChannelsAt(Min3(r, g, b), Max3(r, g, b), WrappedSixths(r, g, b), r, g, b)
  {
    var mx, mn := Max3(r, g, b), Min3(r, g, b);
    var f := HueNumerator(r, g, b) / (mx - mn);
    SignedFraction(HueNumerator(r, g, b), mx - mn);
    if f >= 0.0 {
      SectorGreenBlue(mn, mx, f, r, g, b);
    } else {
      assert WrappedSixths(r, g, b) == 2.0 - -f;
      SectorGreenRed(mn, mx, -f, r, g, b);
    }
  }

  lemma BlueLargest(r: real, g: real, b: real)
    requires Max3(r, g, b) != Min3(r, g, b) && HueBase(r, g, b) == 4
    ensures ChannelsAt(Min3(r, g, b), Max3(r, g, b), WrappedSixths(r, g, b), r, g, b)
  {
    var mx, mn := Max3(r, g, b), Min3(r, g, b);
    var f := HueNumerator(r, g, b) / (mx - mn);
    SignedFraction(HueNumerator(r, g, b), mx - mn);
    if f >= 0.0 {
      SectorBlueRed(mn, mx, f, r, g, b);
    } else {
      assert WrappedSixths(r, g, b) == 4.0 - -f;
      SectorBlueGreen(mn, mx, -f, r, g, b);
    }
  }

  /** For a chromatic colour `q` is its largest channel fraction and `p` its smallest. */
  lemma HslQOf(mx: real, mn: real)
    requires 0.0 <= mn < mx <= 1.0
    ensures var l, d := (mx + mn) / 2.0, mx - mn;
            var s := if l < 0.5 then d / (mx + mn) else d / (2.0 - mx - mn);
            HslQ(l, s) == mx && 2.0 * l - HslQ(l, s) == mn
  {
    var l, d := (mx + mn) / 2.0, mx - mn;
    if l < 0.5 {
      var s := d / (mx + mn);
      CancelQuotient(d, mx + mn);
      assert l * s == Mul(mx + mn, s) / 2.0;
      assert HslQ(l, s) == l + l * s;
    } else {
      var s := d / (2.0 - mx - mn);
      CancelQuotient(d, 2.0 - mx - mn);
      assert s - l * s == Mul(2.0 - mx - mn, s) / 2.0;
    }
  }

  /** The RGB form of a chromatic HSL colour, once `p` and `q` are known. */
  lemma RgbOfChromaticHsl(u: real, s: real, l: real, p: real, q: real)
    requires s != 0.0 && HslQ(l, s) == q && 2.0 * l - q == p
    ensures RgbOfHsl(Hsl(Fin(60.0 * u), s * 100.0, l * 100.0)) ==
            Rgb(Scale(HueToChannel(p, q, Fin(u / 6.0 + 1.0 / 3.0))),
                Scale(HueToChannel(p, q, Fin(u / 6.0))),
                Scale(HueToChannel(p, q, Fin(u / 6.0 + -1.0 / 3.0))))
  {
    assert Over(Fin(60.0 * u), 360.0) == Fin(u / 6.0);
    assert s * 100.0 / 100.0 == s && l * 100.0 / 100.0 == l;
  }

  /** The HSL form of a chromatic colour in 0..255, spelled out through its wrapped hue. */
  lemma HslOfChromatic(c: Rgb)
    requires InGamut(c)
    requires var (r, g, b) := Fractions(c); Max3(r, g, b) != Min3(r, g, b)
    ensures var (r, g, b) := Fractions(c);
            var mx, mn := Max3(r, g, b), Min3(r, g, b);
            var l, d := (mx + mn) / 2.0, mx - mn;
            var s := if l < 0.5 then d / (mx + mn) else d / (2.0 - mx - mn);
            HslOf(c) == Hsl(Fin(60.0 * WrappedSixths(r, g, b)), s * 100.0, l * 100.0)
  {
  }

  /** Every colour in 0..255 survives the trip to HSL and back unchanged (exact
      arithmetic; the source works on doubles, where the final floor can lose one). */
  lemma HslRoundTrip(c: Rgb)
    requires InGamut(c)
    ensures RgbOfHsl(HslOf(c)) == c
  {
    var (r, g, b) := Fractions(c);
    var mx, mn := Max3(r, g, b), Min3(r, g, b);
    if mx == mn {
      GreyHslRoundTrip(c);
    } else {
      var l, d := (mx + mn) / 2.0, mx - mn;
      var s := if l < 0.5 then d / (mx + mn) else d / (2.0 - mx - mn);
      var u := WrappedSixths(r, g, b);
      HslOfChromatic(c);
      assert HslOf(c) == Hsl(Fin(60.0 * u), s * 100.0, l * 100.0);
      HslSaturationRange(mx, mn);
      HslQOf(mx, mn);
      RgbOfChromaticHsl(u, s, l, mn, mx);
      HslChannelsRoundTrip(r, g, b);
      ScaleOfFractions(c);
    }
  }
}
