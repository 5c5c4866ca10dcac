/** `ColorUtils.mix` (src/ts/Utils/ColorUtils.ts:294-313): the weighted mean of two
    colours, channel by channel, floored. */
module ColorMix {
  import opened Wrappers
  import opened ColorTypes
  import opened RealFacts
  import opened ColorConversions

  /** An argument of `mix`: an RGB colour, or an HSL one (recognised by having no
      `r` field). */
  datatype MixColor = RgbColor(rgb: Rgb) | HslColor(hsl: Hsl)

  /** The RGB form of an argument: an HSL colour goes through `hslToRgb`. */
  function AsRgb(c: MixColor): (r: Rgb)
    ensures c.RgbColor? ==> r == c.rgb
    ensures c.HslColor? && HslInRange(c.hsl) ==> InGamut(r)
  {
    match c
    case RgbColor(x) => x
    case HslColor(x) =>
      if HslInRange(x) then HslToRgbInGamut(x); RgbOfHsl(x) else RgbOfHsl(x)
  }

  /** The weighted mean of two channels. */
  function WeightedMean(c1: int, c2: int, w1: real, w2: real): real
    requires w1 + w2 != 0.0
  {
    (c1 as real * w1 + c2 as real * w2) / (w1 + w2)
  }

  /** The floor of the weighted mean of two channels. */
  function MixChannel(c1: int, c2: int, w1: real, w2: real): (m: int)
    requires w1 + w2 != 0.0
    ensures m as real <= WeightedMean(c1, c2, w1, w2) < m as real + 1.0
  {
    WeightedMean(c1, c2, w1, w2).Floor
  }

  /** The source's `mix`. With weights summing to zero the source divides by zero and
      its channels are not finite numbers; the model has no colour for that. */
  function Mix(color1: MixColor, color2: MixColor, size1: real, size2: real): (m: Option<Rgb>)
    ensures m.None? <==> size1 + size2 == 0.0
  {
    if size1 + size2 == 0.0 then None
    else
      var rgb1, rgb2 := AsRgb(color1), AsRgb(color2);
      Some(Rgb(MixChannel(rgb1.r, rgb2.r, size1, size2),
               MixChannel(rgb1.g, rgb2.g, size1, size2),
               MixChannel(rgb1.b, rgb2.b, size1, size2)))
  }

  /** For non-negative weights with a positive sum, a mixed channel lies between the
      two channels mixed. */
  lemma MixChannelBetween(c1: int, c2: int, w1: real, w2: real)
    requires w1 >= 0.0 && w2 >= 0.0 && w1 + w2 > 0.0
    ensures c1 <= c2 ==> c1 <= MixChannel(c1, c2, w1, w2) <= c2
    ensures c2 <= c1 ==> c2 <= MixChannel(c1, c2, w1, w2) <= c1
  {
    var lo, hi := if c1 <= c2 then c1 else c2, if c1 <= c2 then c2 else c1;
    var w := w1 + w2;
    var n := c1 as real * w1 + c2 as real * w2;
    // n - lo * w and hi * w - n are sums of non-negative products
    NonNegativeProduct((c1 - lo) as real, w1);
    NonNegativeProduct((c2 - lo) as real, w2);
    NonNegativeProduct((hi - c1) as real, w1);
    NonNegativeProduct((hi - c2) as real, w2);
    assert Mul((c1 - lo) as real, w1) + Mul((c2 - lo) as real, w2) == n - Mul(lo as real, w);
    assert Mul((hi - c1) as real, w1) + Mul((hi - c2) as real, w2) == Mul(hi as real, w) - n;
    QuotientBetween(n, w, lo as real, hi as real);
    assert n / w == WeightedMean(c1, c2, w1, w2);
    FloorBetween(WeightedMean(c1, c2, w1, w2), lo, hi);
  }

  lemma FloorBetween(x: real, lo: int, hi: int)
    requires lo as real <= x <= hi as real
    ensures lo <= x.Floor <= hi
  {
  }

  /** Mixing a colour with itself gives the colour back, whatever the (non-cancelling)
      weights. */
  lemma MixSame(c: MixColor, w1: real, w2: real)
    requires w1 + w2 != 0.0
    ensures Mix(c, c, w1, w2) == Some(AsRgb(c))
  {
    var x := AsRgb(c);
    MixSameChannel(x.r, w1, w2);
    MixSameChannel(x.g, w1, w2);
    MixSameChannel(x.b, w1, w2);
  }

  lemma MixSameChannel(k: int, w1: real, w2: real)
    requires w1 + w2 != 0.0
    ensures MixChannel(k, k, w1, w2) == k
  {
    assert k as real * (w1 + w2) == k as real * w1 + k as real * w2;
    QuotientOfNonZero(k as real * w1 + k as real * w2, w1 + w2, k as real);
  }

  /** A zero second weight gives the first colour (in RGB form). */
  lemma MixZeroWeight(c1: MixColor, c2: MixColor, w: real)
    requires w != 0.0
    ensures Mix(c1, c2, w, 0.0) == Some(AsRgb(c1))
  {
    var x := AsRgb(c1);
    var y := AsRgb(c2);
    MixZeroWeightChannel(x.r, y.r, w);
    MixZeroWeightChannel(x.g, y.g, w);
    MixZeroWeightChannel(x.b, y.b, w);
  }

  lemma MixZeroWeightChannel(k: int, j: int, w: real)
    requires w != 0.0
    ensures MixChannel(k, j, w, 0.0) == k
  {
    assert j as real * 0.0 == 0.0;
    QuotientOfNonZero(k as real * w, w, k as real);
  }

  /** Swapping the colours together with their weights changes nothing. */
  lemma MixSymmetric(c1: MixColor, c2: MixColor, w1: real, w2: real)
    ensures Mix(c1, c2, w1, w2) == Mix(c2, c1, w2, w1)
  {
    if w1 + w2 != 0.0 {
      var x, y := AsRgb(c1), AsRgb(c2);
      assert x.r as real * w1 + y.r as real * w2 == y.r as real * w2 + x.r as real * w1;
    }
  }

  /** For non-negative weights with a positive sum every channel of the mix lies
      between the channels of the two colours, so mixing two colours in 0..255 gives
      one in 0..255. */
  lemma MixBetween(c1: MixColor, c2: MixColor, w1: real, w2: real)
    requires w1 >= 0.0 && w2 >= 0.0 && w1 + w2 > 0.0
    ensures var m, x, y := Mix(c1, c2, w1, w2).value, AsRgb(c1), AsRgb(c2);
            Between(m.r, x.r, y.r) && Between(m.g, x.g, y.g) && Between(m.b, x.b, y.b)
    ensures InGamut(AsRgb(c1)) && InGamut(AsRgb(c2)) ==> InGamut(Mix(c1, c2, w1, w2).value)
  {
    var x, y := AsRgb(c1), AsRgb(c2);
    MixChannelBetween(x.r, y.r, w1, w2);
    MixChannelBetween(x.g, y.g, w1, w2);
    MixChannelBetween(x.b, y.b, w1, w2);
  }

  predicate Between(m: int, a: int, b: int) {
    (a <= m <= b) || (b <= m <= a)
  }

  /** Black and white mixed with equal weights: every channel is 255 / 2 floored. */
  lemma MixBlackWhite()
    ensures Mix(RgbColor(Rgb(0, 0, 0)), RgbColor(Rgb(255, 255, 255)), 1.0, 1.0) == Some(Rgb(127, 127, 127))
  {
    assert WeightedMean(0, 255, 1.0, 1.0) == 127.5;
  }
}
