/** The colour records the library passes around (the `IRgb`, `IRgba`, `IHsl`,
    `IHsla`, `IHsv` and `IHsva` interfaces). Each is a plain value. */
module ColorTypes {
  import opened JsNumber

  /** Red, green and blue channels. Every producer of an `IRgb` in the library
      (floor after scaling, `parseInt`) yields integers, so channels are `int`. */
  datatype Rgb = Rgb(r: int, g: int, b: int)

  /** An RGB colour with its alpha, which may be NaN when parsing found none. */
  datatype Rgba = Rgba(color: Rgb, a: Num)

  /** Hue in degrees (NaN when undefined), saturation and lightness in percent. */
  datatype Hsl = Hsl(h: Num, s: real, l: real)

  datatype Hsla = Hsla(color: Hsl, a: Num)

  /** Hue in degrees (NaN when undefined), saturation and value in percent. */
  datatype Hsv = Hsv(h: Num, s: real, v: real)

  datatype Hsva = Hsva(color: Hsv, a: Num)

  /** The documented domain of an RGB colour: every channel an integer in 0..255. */
  predicate InGamut(c: Rgb) {
    0 <= c.r <= 255 && 0 <= c.g <= 255 && 0 <= c.b <= 255
  }

  predicate IsGrey(c: Rgb) {
    c.r == c.g == c.b
  }

  /** The documented domain of an HSL colour: a hue in [0, 360] (or none), saturation
      and lightness in [0, 100]. */
  predicate HslInRange(c: Hsl) {
    (c.h.Fin? ==> 0.0 <= c.h.v <= 360.0) && 0.0 <= c.s <= 100.0 && 0.0 <= c.l <= 100.0
  }

  /** The documented domain of an HSV colour. */
  predicate HsvInRange(c: Hsv) {
    (c.h.Fin? ==> 0.0 <= c.h.v <= 360.0) && 0.0 <= c.s <= 100.0 && 0.0 <= c.v <= 100.0
  }
}
