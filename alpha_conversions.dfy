/** The alpha-carrying faces of the conversions (src/ts/Utils/ColorUtils.ts:79-88,
    103-112, 127-136, 200-209, 241-250): each converts the colour part and copies the
    alpha through unchanged. */
module AlphaConversions {
  import opened JsNumber
  import opened ColorTypes
  import opened ColorConversions
  import opened HsvConversions

  function HslaToRgba(c: Hsla): (r: Rgba)
    ensures r.a == c.a
    ensures c.color.s == 0.0 ==> IsGrey(r.color)
  {
    Rgba(RgbOfHsl(c.color), c.a)
  }

  function HslaToHsva(c: Hsla): (r: Hsva)
    ensures r.a == c.a && r.color.h == c.color.h
    ensures c.color.s == 0.0 ==> r.color.v == c.color.l && r.color.s == 0.0
  {
    Hsva(HslToHsv(c.color), c.a)
  }

  function HsvaToHsla(c: Hsva): (r: Hsla)
    ensures r.a == c.a && r.color.h == c.color.h
    ensures c.color.s == 0.0 ==> r.color.l == c.color.v && r.color.s == 0.0
  {
    Hsla(HsvToHsl(c.color), c.a)
  }

  function HsvaToRgba(c: Hsva): (r: Rgba)
    ensures r.a == c.a
    ensures c.color.h.NaN? ==> r.color == Rgb(0, 0, 0)
  {
    Rgba(RgbOfHsv(c.color), c.a)
  }

  function RgbaToHsva(c: Rgba): (r: Hsva)
    ensures r.a == c.a
    ensures IsGrey(c.color) ==> r.color.h.NaN? && r.color.s == 0.0
  {
    Hsva(HsvOf(c.color), c.a)
  }

  /** An HSLA colour within its documented domain converts to channels in 0..255,
      with the alpha (even NaN) carried over. */
  lemma HslaToRgbaInGamut(c: Hsla)
    requires HslInRange(c.color)
    ensures InGamut(HslaToRgba(c).color) && HslaToRgba(c).a == c.a
  {
    HslToRgbInGamut(c.color);
  }

  /** An HSVA colour within its documented domain converts to channels in 0..255,
      with the alpha carried over. */
  lemma HsvaToRgbaInGamut(c: Hsva)
    requires HsvInRange(c.color)
    ensures InGamut(HsvaToRgba(c).color) && HsvaToRgba(c).a == c.a
  {
    HsvToRgbInGamut(c.color);
  }

  /** RGBA to HSVA and back restores the colour, alpha included, when the HSV hue is
      non-negative. */
  lemma RgbaHsvaRoundTrip(c: Rgba)
    requires InGamut(c.color) && HsvOf(c.color).h.Fin? && HsvOf(c.color).h.v >= 0.0
    ensures HsvaToRgba(RgbaToHsva(c)) == c
  {
    HsvRoundTrip(c.color);
  }

  /** HSLA to HSVA and back restores the colour, alpha included, strictly between
      black and white. */
  lemma HslaHsvaRoundTrip(c: Hsla)
    requires 0.0 <= c.color.s <= 100.0 && 0.0 < c.color.l < 100.0
    ensures HsvaToHsla(HslaToHsva(c)) == c
  {
    HslHsvRoundTrip(c.color);
  }

  /** HSVA to HSLA and back restores the colour, alpha included, for a positive value. */
  lemma HsvaHslaRoundTrip(c: Hsva)
    requires 0.0 <= c.color.s <= 100.0 && 0.0 < c.color.v <= 100.0
    ensures HslaToHsva(HsvaToHsla(c)) == c
  {
    HsvHslRoundTrip(c.color);
  }
}
