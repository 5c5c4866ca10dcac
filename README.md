# Colour conversions and the colour input of object-gui

This project models two parts of the object-gui property-editor toolkit and proves
properties of each:

- The colour library `ColorUtils` (src/ts/Utils/ColorUtils.ts):
  - conversions between RGB, HSL and HSV, and their alpha-carrying forms;
  - the reader of colour strings: `#rgb`, `#rgba`, `#rrggbb` and `#rrggbbaa`, `rgb()` / `rgba()`, and `hsl()` / `hsla()`;
  - the `getStyleFrom*` formatters;
  - the weighted `mix` of two colours.
- The colour input of the options editor (src/ts/Editors/EditorColorInput.ts):
  - an `<input type="color">` whose background shows the colour it holds;
  - the browser keeps that value as a six-digit `#rrggbb` colour in lower case, and turns anything else into `#000000`;
  - its text is black or white, chosen from the weighted brightness of that colour.

## How the model is built

The model follows the form of each part of the source.

Functions that only compute a value become Dafny functions on datatypes. These are the HSL/HSV conversions, the alpha wrappers, `mix`, the string reader and the formatters.

Some source functions build their result by reassigning local variables. These are `rgbToHsl`, `hslToRgb`, `hue2rgb`, `hsvToRgb` and `rgbToHsv`. Each is a `method` that does the same steps, and each is proved equal to a pure function that defines its result. The lemmas are stated about that function.

The editor item is a `class ColorInput` with four fields:

- `value`, the editor's own copy of the value;
- `inputValue`, the value the element holds after the browser has sanitised it;
- the two style properties, `backgroundColor` and `color`.

`UpdateStyle` and the change listener update those fields in place.

The sanitising follows the value sanitization algorithm of the Color state in the HTML Standard (section 4.10.5.1.15, "Color state (type=color)"). A valid simple colour, `#` and six hexadecimal digits, is kept in ASCII lower case. Anything else becomes `#000000`. This is `Sanitize`.

### JavaScript semantics

JavaScript numbers become exact reals. The semantics the colour code depends on are written out in `JsNumber`:

| JavaScript | Model |
|---|---|
| a number, which may be NaN | `Num = Fin(real) \| NaN` |
| `0 / 0`, the hue of a grey in `rgbToHsv` | `Divide` |
| `Math.round` | `Round` |
| `%`, which truncates | `Rem` |
| `parseInt`, base 10 and base 16 | `DecimalValue` and `HexByte` |
| `parseFloat` | `ParseFloat` |
| printing a number inside a template string | `NumberText` |

`NumberText` prints integers exactly. Any other finite number is printed by a `show` parameter, which stands for JavaScript's shortest round-trip decimal form.

### The regular expressions

The regular expressions of `stringToRgba` are recognised by scanning. Each one is deterministic, so a forward scan finds the same match a backtracking engine would:

- `MatchAt` matches the pattern at one position.
- `FirstMatch` is the unanchored `exec`, proved to find the leftmost match.
- The `i` flag is modelled for ASCII letters.

### Behaviour of the source worth knowing

- **Absent alpha.** A functional notation without an alpha reads with alpha NaN.
  - The source picks `parseFloat(result[5])` when `result.length > 4` and 1 otherwise (src/ts/Utils/ColorUtils.ts:348 and 360).
  - The match array of these patterns always has six entries, so the `1` fallback is never taken. `parseFloat` of the missing group is NaN.
  - `RgbWithoutAlpha` shows `rgb(10, 20, 30)` reading with NaN alpha.
- **HSV hue.** `rgbToHsl` adds a turn to a negative hue (src/ts/Utils/ColorUtils.ts:33-35). `rgbToHsv` does not (src/ts/Utils/ColorUtils.ts:222-230).
  - A colour whose red is largest and whose blue exceeds its green therefore gets a negative HSV hue.
  - `hsvToRgb` has no sector for a negative hue, so such a colour comes back black from the round trip (`HsvRoundTripCases`).
- **HSL round trip.** With exact arithmetic the RGB→HSL→RGB round trip is exact (`HslRoundTrip`).
- **Case of the branch prefix.** The choice between the `rgb`, `hsl` and hexadecimal branches is case-sensitive (`startsWith`), although the patterns themselves ignore case.
  - An upper-case `RGB(...)` is therefore refused (`UpperCaseRefused`).
- **The colour input's value.** The constructor assigns the value to the element and styles the element from `input.value` read back (src/ts/Editors/EditorColorInput.ts:16-18).
  - Because the element is a colour input (src/ts/Editors/EditorColorInput.ts:32), that read gives the sanitised value.
  - For the value `#fff` the background is therefore `#000000` with white text, not `#fff` with black text.

## Model

| member | source | states |
|---|---|---|
| ColorConversions.RgbToHsl | src/ts/Utils/ColorUtils.ts:4-38 | the step-by-step conversion equals `HslOf`; for channels in 0..255 the hue lies in [0, 360), saturation and lightness in [0, 100]; a grey gets hue and saturation 0 |
| ColorConversions.HslOf | src/ts/Utils/ColorUtils.ts:4-38 | the function form of `rgbToHsl`: the hue is always a number, and a grey gets hue 0 and saturation 0; `HslOfRange` gives its ranges and `HslRoundTrip` shows `RgbOfHsl` undoes it |
| ColorConversions.HslOfRange | src/ts/Utils/ColorUtils.ts:4-38 | for channels in 0..255 the HSL form is defined, in range, and has hue and saturation 0 exactly when the colour is a grey |
| ColorConversions.GamutHslDefined | src/ts/Utils/ColorUtils.ts:21 | on channels in 0..255 neither saturation denominator is zero |
| ColorConversions.HslSaturationRange | src/ts/Utils/ColorUtils.ts:21 | the saturation fraction of a chromatic colour lies in (0, 1] |
| ColorConversions.HslHueRange | src/ts/Utils/ColorUtils.ts:23-26 | the unwrapped hue of a chromatic colour lies in [-60, 300], so one added turn brings it into [0, 360) |
| ColorConversions.Scale | src/ts/Utils/ColorUtils.ts:72-74 | a fraction in [0, 1], scaled to a byte and floored, lies in 0..255 |
| ColorConversions.ScaleOfFractions | src/ts/Utils/ColorUtils.ts:72-74 | scaling the fractions of a colour back to bytes gives the colour |
| ColorConversions.WrapUnit | src/ts/Utils/ColorUtils.ts:316-324 | an offset in [-1, 2] is brought into [0, 1] |
| ColorConversions.Hue2Rgb | src/ts/Utils/ColorUtils.ts:315-339 | the source's reassignment of `tCalc` and early returns equal `HueToChannel`; for an offset in [-1, 2] or NaN the channel lies between `p` and `q` |
| ColorConversions.HueToChannel | src/ts/Utils/ColorUtils.ts:315-339 | the function form of `hue2rgb`: a NaN offset, or equal `p` and `q`, gives `p`; `HueToChannelBetween` bounds it by `p` and `q` |
| ColorConversions.HueToChannelBetween | src/ts/Utils/ColorUtils.ts:315-339 | each of the four pieces of `hue2rgb` stays between `p` and `q` |
| ColorConversions.Interpolate | src/ts/Utils/ColorUtils.ts:326-336 | proof step: moving a fraction in [0, 1] of the way from `p` to `q` stays between them |
| ColorConversions.HslToRgb | src/ts/Utils/ColorUtils.ts:48-77 | the step-by-step conversion equals `RgbOfHsl`; zero saturation gives a grey of the lightness; an HSL colour in range gives channels in 0..255 |
| ColorConversions.RgbOfHsl | src/ts/Utils/ColorUtils.ts:48-77 | the function form of `hslToRgb`: zero saturation gives a grey; `HslToRgbInGamut` bounds it and `HslRoundTrip` shows it undoes `HslOf` |
| ColorConversions.HslPQRange | src/ts/Utils/ColorUtils.ts:61-65 | for lightness and saturation in [0, 1], `q` and `p` lie in [0, 1] |
| ColorConversions.HslToRgbInGamut | src/ts/Utils/ColorUtils.ts:48-77 | an HSL colour in its documented range converts to channels in 0..255 |
| ColorConversions.GreyHslRoundTrip | src/ts/Utils/ColorUtils.ts:4-77 | a grey comes back unchanged from RGB to HSL and back |
| ColorConversions.HslRoundTrip | src/ts/Utils/ColorUtils.ts:4-77 | every colour in 0..255 comes back unchanged from `rgbToHsl` followed by `hslToRgb` |
| ColorConversions.HslChannelsRoundTrip | src/ts/Utils/ColorUtils.ts:67-69 | proof step: at the wrapped hue, `hue2rgb` with `p` the smallest and `q` the largest fraction gives back red, green and blue |
| ColorConversions.HslQOf | src/ts/Utils/ColorUtils.ts:61-65 | for a chromatic colour `q` is its largest channel fraction and `p` its smallest |
| ColorConversions.RgbOfChromaticHsl | src/ts/Utils/ColorUtils.ts:48-77 | proof step: the RGB form of a chromatic HSL colour once `p` and `q` are known |
| ColorConversions.HslOfChromatic | src/ts/Utils/ColorUtils.ts:4-38 | proof step: the HSL form of a chromatic colour written through its wrapped hue in sixths |
| ColorConversions.ChannelRising | src/ts/Utils/ColorUtils.ts:326-328 | proof step: on the first sixth of the turn the channel is `p` plus the fraction `f` of `q - p` |
| ColorConversions.ChannelTop | src/ts/Utils/ColorUtils.ts:330-332 | proof step: from one sixth to one half of the turn the channel is `q` |
| ColorConversions.ChannelFalling | src/ts/Utils/ColorUtils.ts:334-336 | proof step: from one half to two thirds the channel falls from `q` back to `p` |
| ColorConversions.ChannelBottom | src/ts/Utils/ColorUtils.ts:338 | proof step: from two thirds of the turn on the channel is `p` |
| ColorConversions.SectorRedGreen | src/ts/Utils/ColorUtils.ts:67-69 | proof step: red largest and green at least blue: the three channels come back |
| ColorConversions.SectorRedBlue | src/ts/Utils/ColorUtils.ts:67-69 | proof step: red largest and blue above green (hue wrapped by one turn): the channels come back |
| ColorConversions.SectorGreenBlue | src/ts/Utils/ColorUtils.ts:67-69 | proof step: green largest and blue at least red: the channels come back |
| ColorConversions.SectorGreenRed | src/ts/Utils/ColorUtils.ts:67-69 | proof step: green largest and red above blue: the channels come back |
| ColorConversions.SectorBlueRed | src/ts/Utils/ColorUtils.ts:67-69 | proof step: blue largest and red at least green (including the unwrapped offset of exactly one turn): the channels come back |
| ColorConversions.SectorBlueGreen | src/ts/Utils/ColorUtils.ts:67-69 | proof step: blue largest and green above red: the channels come back |
| HsvConversions.RgbToHsv | src/ts/Utils/ColorUtils.ts:211-239 | the step-by-step conversion equals `HsvOf`; the hue is NaN exactly for a grey |
| HsvConversions.HsvOf | src/ts/Utils/ColorUtils.ts:211-239 | the function form of `rgbToHsv`: a grey gets a NaN hue and saturation 0; `HsvOfRange` gives its ranges and `HsvRoundTripCases` its round trip through `RgbOfHsv` |
| HsvConversions.HsvOfRange | src/ts/Utils/ColorUtils.ts:211-239 | for channels in 0..255, value and saturation lie in [0, 100]; the hue is NaN exactly for a grey, otherwise in [-60, 300], and negative exactly when red is largest and blue exceeds green |
| HsvConversions.HsvToRgb | src/ts/Utils/ColorUtils.ts:138-198 | the step-by-step conversion equals `RgbOfHsv`; a NaN hue or one outside [0, 360] gives black; an HSV colour in range gives channels in 0..255 |
| HsvConversions.RgbOfHsv | src/ts/Utils/ColorUtils.ts:138-198 | the function form of `hsvToRgb`: a NaN hue gives black; `HsvToRgbInGamut` bounds it |
| HsvConversions.HsvChannelsRange | src/ts/Utils/ColorUtils.ts:146-195 | for a hue in [0, 6] sixths some sector holds it, and the channel fractions lie between `v - c` and `v`, with those as smallest and largest |
| HsvConversions.HsvToRgbInGamut | src/ts/Utils/ColorUtils.ts:138-198 | an HSV colour in its documented range converts to channels in 0..255 |
| HsvConversions.MiddleFactor | src/ts/Utils/ColorUtils.ts:147 | proof step: within a pair of sectors `1 - abs(h % 2 - 1)` is the distance of the hue from the pair's boundary |
| HsvConversions.MiddleOfHue | src/ts/Utils/ColorUtils.ts:147 | at the hue `rgbToHsv` computes, the middle component `x` is the middle channel minus the smallest |
| HsvConversions.SectorOfHue | src/ts/Utils/ColorUtils.ts:151-186 | proof step: the sector of the hue puts the chroma on the largest channel, `x` on the middle and 0 on the smallest |
| HsvConversions.ChromaOfRatio | src/ts/Utils/ColorUtils.ts:146 | proof step: the chroma of a value `v` and saturation `d / v` is `d` |
| HsvConversions.HsvChannelsRoundTrip | src/ts/Utils/ColorUtils.ts:138-239 | proof step: a chromatic colour with a non-negative hue has its channel fractions recovered exactly from hue, saturation and value |
| HsvConversions.HsvOfChromatic | src/ts/Utils/ColorUtils.ts:211-239 | proof step: the HSV form of a chromatic colour written through its hue in sixths |
| HsvConversions.RgbOfHsvChannels | src/ts/Utils/ColorUtils.ts:138-198 | proof step: an HSV colour whose channel fractions are known converts to their scaled bytes |
| HsvConversions.HsvRoundTrip | src/ts/Utils/ColorUtils.ts:138-239 | a colour in 0..255 with a non-negative HSV hue comes back unchanged from `rgbToHsv` followed by `hsvToRgb` |
| HsvConversions.HsvRoundTripCases | src/ts/Utils/ColorUtils.ts:138-239 | the whole RGB→HSV→RGB round trip: unchanged, except that greys and the colours with a negative hue come back black |
| HsvConversions.HslHsvFractions | src/ts/Utils/ColorUtils.ts:90-125 | proof step: from lightness in (0, 1) and saturation in [0, 1], the HSV value is positive and converting back gives the same lightness and saturation |
| HsvConversions.HslToHsv | src/ts/Utils/ColorUtils.ts:90-101 | the hue is copied, and a grey keeps its lightness as its value with saturation 0; `HslHsvRoundTrip` shows `HsvToHsl` undoes it |
| HsvConversions.HsvToHsl | src/ts/Utils/ColorUtils.ts:114-125 | the hue is copied, and a grey keeps its value as its lightness with saturation 0; `HsvHslRoundTrip` shows `HslToHsv` undoes it |
| HsvConversions.HslHsvRoundTrip | src/ts/Utils/ColorUtils.ts:90-125 | `hsvToHsl(hslToHsv(c)) == c` for lightness strictly between 0 and 100 and saturation in [0, 100] |
| HsvConversions.LightnessOfValue | src/ts/Utils/ColorUtils.ts:117 | proof step: the HSL lightness of a positive value lies between `v / 2` and `v`, and is 1 only for full value and no saturation |
| HsvConversions.ValueOfLightness | src/ts/Utils/ColorUtils.ts:93 | proof step: the value is the lightness plus the HSL saturation's share of the distance to the nearer of black and white |
| HsvConversions.HsvHslRoundTrip | src/ts/Utils/ColorUtils.ts:90-125 | `hslToHsv(hsvToHsl(c)) == c` for a value in (0, 100] and saturation in [0, 100] |
| AlphaConversions.HslaToRgbaInGamut | src/ts/Utils/ColorUtils.ts:79-88 | an HSLA colour in range converts to channels in 0..255 with the alpha, even NaN, copied |
| AlphaConversions.HslaToRgba | src/ts/Utils/ColorUtils.ts:79-88 | the alpha is copied, and zero saturation gives a grey |
| AlphaConversions.HslaToHsva | src/ts/Utils/ColorUtils.ts:103-112 | the alpha and the hue are copied, and a grey keeps its lightness as its value with saturation 0 |
| AlphaConversions.HsvaToHsla | src/ts/Utils/ColorUtils.ts:127-136 | the alpha and the hue are copied, and a grey keeps its value as its lightness with saturation 0 |
| AlphaConversions.HsvaToRgba | src/ts/Utils/ColorUtils.ts:200-209 | the alpha is copied, and a NaN hue gives black |
| AlphaConversions.RgbaToHsva | src/ts/Utils/ColorUtils.ts:241-250 | the alpha is copied, and a grey gets a NaN hue and saturation 0 |
| AlphaConversions.HsvaToRgbaInGamut | src/ts/Utils/ColorUtils.ts:200-209 | an HSVA colour in range converts to channels in 0..255 with the alpha copied |
| AlphaConversions.RgbaHsvaRoundTrip | src/ts/Utils/ColorUtils.ts:200-250 | RGBA to HSVA and back restores colour and alpha when the HSV hue is non-negative |
| AlphaConversions.HslaHsvaRoundTrip | src/ts/Utils/ColorUtils.ts:103-136 | HSLA to HSVA and back restores colour and alpha strictly between black and white |
| AlphaConversions.HsvaHslaRoundTrip | src/ts/Utils/ColorUtils.ts:103-136 | HSVA to HSLA and back restores colour and alpha for a positive value |
| ColorMix.Mix | src/ts/Utils/ColorUtils.ts:294-313 | the mix has a colour exactly when the weights do not sum to zero |
| ColorMix.AsRgb | src/ts/Utils/ColorUtils.ts:297-306 | an RGB argument is used as it is, and an HSL one in range converts to channels in 0..255 |
| ColorMix.MixChannel | src/ts/Utils/ColorUtils.ts:295-296 | `Math.floor` of the weighted mean: the integer at most the mean and more than the mean minus one |
| ColorMix.MixBlackWhite | src/ts/Utils/ColorUtils.ts:294-313 | black and white mixed with weights 1 and 1 give (127, 127, 127) |
| ColorMix.MixChannelBetween | src/ts/Utils/ColorUtils.ts:295-296 | for non-negative weights with a positive sum a mixed channel lies between the two channels |
| ColorMix.MixBetween | src/ts/Utils/ColorUtils.ts:294-313 | every channel of the mix lies between the channels of the two colours, so two colours in 0..255 mix to one in 0..255 |
| ColorMix.MixSame | src/ts/Utils/ColorUtils.ts:294-313 | mixing a colour with itself gives that colour, in RGB form |
| ColorMix.MixSameChannel | src/ts/Utils/ColorUtils.ts:295-296 | proof step: the weighted mean of a channel with itself is that channel |
| ColorMix.MixZeroWeight | src/ts/Utils/ColorUtils.ts:294-313 | a zero second weight gives the first colour, in RGB form |
| ColorMix.MixZeroWeightChannel | src/ts/Utils/ColorUtils.ts:295-296 | proof step: a zero second weight gives the first channel |
| ColorMix.MixSymmetric | src/ts/Utils/ColorUtils.ts:294-313 | swapping the colours together with their weights does not change the mix |
| ColorMix.FloorBetween | src/ts/Utils/ColorUtils.ts:296 | proof step: the floor of a value between two integers lies between them |
| ColorStrings.SkipSpaces | src/ts/Utils/ColorUtils.ts:343 | `\s*` stops at the first position that is not white space |
| ColorStrings.SkipDigits | src/ts/Utils/ColorUtils.ts:343 | `\d+` reads a maximal run of digits |
| ColorStrings.SkipDecimal | src/ts/Utils/ColorUtils.ts:343 | `[\d.]+` reads a maximal run of digits and dots |
| ColorStrings.GroupsOf | src/ts/Utils/ColorUtils.ts:344-352 | the group texts of a match are non-empty digit runs, and the alpha text is a run of digits and dots |
| ColorStrings.Field | src/ts/Utils/ColorUtils.ts:343 | a number field matched covers a non-empty run of digits |
| ColorStrings.NextField | src/ts/Utils/ColorUtils.ts:343 | a field after a comma lies after the comma and covers digits |
| ColorStrings.Tail | src/ts/Utils/ColorUtils.ts:343 | the optional alpha group covers digits and dots and ends before the closing parenthesis |
| ColorStrings.MatchAt | src/ts/Utils/ColorUtils.ts:343 | a match at a position has groups of the shape the pattern guarantees |
| ColorStrings.Arguments | src/ts/Utils/ColorUtils.ts:343 | a match of the arguments has groups of that shape |
| ColorStrings.FirstMatch | src/ts/Utils/ColorUtils.ts:344 | `exec` returns a position where the pattern matches, with its groups |
| ColorStrings.FirstMatchLeftmost | src/ts/Utils/ColorUtils.ts:344 | no earlier position matches, and no position at all when `exec` finds nothing |
| ColorStrings.FirstMatchStep | src/ts/Utils/ColorUtils.ts:344 | proof step: one step of the search: a match here is returned, otherwise the search goes on |
| ColorStrings.HexDigitsOf | src/ts/Utils/ColorUtils.ts:373 | the text after an optional `#` is the text or the text without its leading `#` |
| ColorStrings.Doubled | src/ts/Utils/ColorUtils.ts:370-372 | each digit written twice: twice the length, position `i` holds digit `i / 2` |
| ColorStrings.ExpandShorthand | src/ts/Utils/ColorUtils.ts:369-372 | a shorthand text becomes six or eight hexadecimal digits without `#`, which the long pattern reads; any other text is left as it is |
| ColorStrings.HexToRgba | src/ts/Utils/ColorUtils.ts:373-383 | the long pattern accepts exactly six or eight hexadecimal digits after an optional `#`, and then gives channels in 0..255 and an alpha in [0, 1] |
| ColorStrings.StringToRgba | src/ts/Utils/ColorUtils.ts:341-385 | the `rgb` branch finds a colour exactly when its pattern matches somewhere, the `hsl` branch likewise, and the hexadecimal branch gives channels in 0..255 and an alpha in [0, 1]; each notation's reading is in the `*Read` lemmas and `HexAccepted` |
| ColorStrings.StringToRgb | src/ts/Utils/ColorUtils.ts:44-46 | something exactly when `stringToRgba` finds something, and then its colour |
| ColorStrings.StringToAlpha | src/ts/Utils/ColorUtils.ts:40-42 | something exactly when `stringToRgba` finds something, and then its alpha |
| ColorStrings.StringFacesAgree | src/ts/Utils/ColorUtils.ts:40-46 | `stringToRgb` and `stringToAlpha` find something exactly together, and then their colour and alpha are those of `stringToRgba` |
| ColorStrings.NotationMatch | src/ts/Utils/ColorUtils.ts:343 | an `rgba(...)` or `hsla(...)` text with digit runs and an alpha, followed by anything, matches at its start with exactly those groups |
| ColorStrings.BareNotationMatch | src/ts/Utils/ColorUtils.ts:343 | an `rgb(...)` or `hsl(...)` text without alpha matches at its start with the three number groups and no alpha group |
| ColorStrings.RgbNotationRead | src/ts/Utils/ColorUtils.ts:342-353 | an `rgba(...)` text reads as the values of its numbers, unclamped, with `parseFloat` of its alpha |
| ColorStrings.RgbBareRead | src/ts/Utils/ColorUtils.ts:342-353 | an `rgb(...)` text without alpha reads as its numbers with alpha NaN |
| ColorStrings.HslNotationRead | src/ts/Utils/ColorUtils.ts:354-365 | an `hsla(...)` text reads as the RGB form of its HSL colour, with `parseFloat` of its alpha |
| ColorStrings.HslBareRead | src/ts/Utils/ColorUtils.ts:354-365 | an `hsl(...)` text without alpha reads as the RGB form of its HSL colour with alpha NaN |
| ColorStrings.UpperCaseRefused | src/ts/Utils/ColorUtils.ts:341-385 | a text starting with `RGB` or `HSL` goes to the hexadecimal branch and is refused |
| ColorStrings.NotationPrefix | src/ts/Utils/ColorUtils.ts:272-283 | the text the formatters write starts with the name that selects its branch |
| ColorStrings.NotationShape | src/ts/Utils/ColorUtils.ts:272-283 | proof step: a written notation begins with its name and `a(` and ends with `)` |
| ColorStrings.GetStyleFromRgb | src/ts/Utils/ColorUtils.ts:272-274 | the text is `rgba(...)`, and a channel in 0..255 is written as its plain decimal digits; `RgbStyleRoundTrip` reads it back |
| ColorStrings.GetStyleFromHsl | src/ts/Utils/ColorUtils.ts:281-283 | the text is `hsla(...)`, with a NaN hue written `NaN`; `HslStyleRoundTrip` reads it back |
| ColorStrings.GetStyleFromHsv | src/ts/Utils/ColorUtils.ts:290-292 | an HSV colour is written as `hsla(...)` with its hue unchanged; `HsvStyleRoundTrip` reads it back |
| ColorStrings.BareNotationPrefix | src/ts/Utils/ColorUtils.ts:342 | proof step: a notation without alpha starts with its name |
| ColorStrings.RgbStyleRoundTrip | src/ts/Utils/ColorUtils.ts:272-274 | reading back `getStyleFromRgb` gives the colour and its opacity (1 when none is given) for channels in 0..255 and an opacity whose text reads back |
| ColorStrings.HslStyleRoundTrip | src/ts/Utils/ColorUtils.ts:281-283 | reading back `getStyleFromHsl` of whole hue, saturation and lightness gives the RGB form of the colour with its opacity |
| ColorStrings.HsvStyleRoundTrip | src/ts/Utils/ColorUtils.ts:290-292 | reading back `getStyleFromHsv` gives the RGB form of the colour's HSL form with its opacity |
| ColorStrings.DefaultOpacity | src/ts/Utils/ColorUtils.ts:272-292 | leaving the opacity out writes the same text as giving 1 |
| ColorStrings.DefaultOpacityReadsBack | src/ts/Utils/ColorUtils.ts:273 | the default opacity 1 is written as `1`, which reads back as 1 |
| ColorStrings.HexAccepted | src/ts/Utils/ColorUtils.ts:366-384 | a text outside the two notations is accepted exactly when, after an optional `#`, it has 3, 4, 6 or 8 hexadecimal digits and nothing else |
| ColorStrings.ShorthandValue | src/ts/Utils/ColorUtils.ts:369-383 | a shorthand digit `x` becomes the byte `17 * x`, and a fourth digit gives alpha `17 * x / 255`, or 1 without it |
| ColorStrings.LongHexValue | src/ts/Utils/ColorUtils.ts:373-383 | six or eight digits read as three bytes and alpha the fourth byte over 255, or 1 |
| ColorStrings.HexIsNotNotation | src/ts/Utils/ColorUtils.ts:366 | a hexadecimal text never starts with `rgb` or `hsl` |
| ColorStringExamples.ShortWhite | src/ts/Utils/ColorUtils.ts:369-383 | `#fff` is white with alpha 1 |
| ColorStringExamples.LongWhite | src/ts/Utils/ColorUtils.ts:373-383 | `#ffffff` is white with alpha 1 |
| ColorStringExamples.HalfTransparentWhite | src/ts/Utils/ColorUtils.ts:373-383 | `#ffffff80` is white with alpha 128 / 255 |
| ColorStringExamples.RgbWithoutAlpha | src/ts/Utils/ColorUtils.ts:342-353 | `rgb(10, 20, 30)` reads as (10, 20, 30) with alpha NaN |
| ColorStringExamples.RgbUnclamped | src/ts/Utils/ColorUtils.ts:342-353 | `rgba(300, 0, 0, 1) trailing` reads as (300, 0, 0) with alpha 1: no clamping, and trailing text is ignored |
| ColorStringExamples.HslRed | src/ts/Utils/ColorUtils.ts:354-365 | `hsl(0, 100%, 50%)` reads as pure red |
| ColorStringExamples.RedOfHsl | src/ts/Utils/ColorUtils.ts:48-77 | hue 0, saturation 100 and lightness 50 convert to (255, 0, 0) |
| ColorStringExamples.NotAColor | src/ts/Utils/ColorUtils.ts:366-384 | `not-a-color` is refused |
| ColorStringExamples.UpperCaseRgb | src/ts/Utils/ColorUtils.ts:341-385 | `RGB(1, 2, 3)` is refused |
| ColorStringExamples.RedStyle | src/ts/Utils/ColorUtils.ts:272-274 | pure red is written `rgba(255, 0, 0, 1)` |
| JsNumber.Round | src/ts/Editors/EditorColorInput.ts:58 | `Math.round` is the integer within one half below and strictly less than one half above |
| JsNumber.RoundThousandths | src/ts/Editors/EditorColorInput.ts:58 | rounding `n / 1000` is `(n + 500) / 1000` in integer division |
| JsNumber.Rem | src/ts/Utils/ColorUtils.ts:147 | the JavaScript remainder by a positive divisor takes the dividend's sign and is smaller than the divisor in magnitude |
| JsNumber.RemTwo | src/ts/Utils/ColorUtils.ts:147 | between `2n` and `2n + 2` the remainder by 2 is the distance from `2n` |
| JsNumber.Divide | src/ts/Utils/ColorUtils.ts:225-229 | `0 / 0` is NaN, and any other quotient multiplied back gives the dividend |
| JsNumber.ParseFloat | src/ts/Utils/ColorUtils.ts:348 | `parseFloat` of digits and dots is NaN exactly when there is no leading number, and otherwise non-negative |
| JsNumber.ParseFloatOfDigits | src/ts/Utils/ColorUtils.ts:348 | on a run of digits `parseFloat` agrees with `parseInt` |
| JsNumber.HexByte | src/ts/Utils/ColorUtils.ts:378-381 | `parseInt` of two hexadecimal digits is a byte |
| JsNumber.NatText | src/ts/Utils/ColorUtils.ts:273 | the decimal text of a natural number is a digit run that `parseInt` reads back as the number, without a leading zero |
| JsNumber.NumberText | src/ts/Utils/ColorUtils.ts:273 | NaN prints as `NaN` and a whole number below 10^21 as its digits |
| JsNumber.WholeReadsBack | src/ts/Utils/ColorUtils.ts:273 | a whole number is printed as its digits, which `parseFloat` reads back as the number |
| JsNumber.DigitSpanOf | src/ts/Utils/ColorUtils.ts:348 | a digit run followed by a non-digit is exactly the digit prefix `parseFloat` reads |
| EditorColorInput.Luminance | src/ts/Editors/EditorColorInput.ts:58 | the rounded weighted brightness is `(299 r + 587 g + 114 b + 500) / 1000` in integer division |
| EditorColorInput.LuminanceRange | src/ts/Editors/EditorColorInput.ts:58 | for channels in 0..255 the brightness lies in 0..255 |
| EditorColorInput.ContrastColor | src/ts/Editors/EditorColorInput.ts:58-60 | the text colour is `#000` or `#fff`, and `#000` exactly when `299 r + 587 g + 114 b >= 125500` |
| EditorColorInput.ContrastMonotone | src/ts/Editors/EditorColorInput.ts:58-60 | raising channels never turns black text white |
| EditorColorInput.TextColor | src/ts/Editors/EditorColorInput.ts:47-61 | nothing for an absent value or one `stringToRgb` cannot read, and otherwise the contrasting colour of what it reads |
| EditorColorInput.TextColorThreshold | src/ts/Editors/EditorColorInput.ts:47-61 | black exactly when the text reads as a colour with weighted sum at least 125500, white exactly when it reads as one below that |
| EditorColorInput.StyleColor | src/ts/Editors/EditorColorInput.ts:42-44 | the style keeps its previous text colour when there is no new one |
| EditorColorInput.Sanitize | src/ts/Editors/EditorColorInput.ts:16-18 | the element keeps a valid simple colour in lower case, a valid simple colour given is kept in lower case and anything else becomes `#000000`, and `stringToRgb` always reads what is kept |
| EditorColorInput.SanitizeKeepsColor | src/ts/Editors/EditorColorInput.ts:16-18 | sanitising a valid simple colour does not change the colour `stringToRgba` reads from it |
| EditorColorInput.SanitizeIdempotent | src/ts/Editors/EditorColorInput.ts:21 | a value the element already holds is kept as it is |
| EditorColorInput.SimpleColorReads | src/ts/Utils/ColorUtils.ts:366-384 | proof step: a simple colour takes the hexadecimal branch and reads as a colour |
| EditorColorInput.LowerSimpleColor | src/ts/Editors/EditorColorInput.ts:16 | proof step: lower case of a simple colour is one, and so is `#000000` |
| EditorColorInput.LowerHexDigit | src/ts/Utils/ColorUtils.ts:369-373 | proof step: lower case keeps a hexadecimal digit one, with the same value, as the `i` flag reads it |
| EditorColorInput.ColorInput.constructor | src/ts/Editors/EditorColorInput.ts:5-27 | the editor keeps the given value, the element holds its sanitised form, the background shows that, and the text colour is the one contrasting with it |
| EditorColorInput.ColorInput.UpdateStyle | src/ts/Editors/EditorColorInput.ts:37-45 | the background becomes the given text; the text colour changes only when `textColor` finds one, so an empty, black or white text colour stays one of those; the values are untouched |
| EditorColorInput.ColorInput.OnChange | src/ts/Editors/EditorColorInput.ts:20-26 | the element holds the sanitised pick, the editor stores it, the background shows it and the text colour contrasts with it; the invariant (a simple colour shown as the background, with the contrasting text colour) is kept |

## Left out

- `getRandomRgbColor` (src/ts/Utils/ColorUtils.ts:256-265) draws from `Math.random`, and randomness is outside this model.
- Arithmetic is exact over `real`, not IEEE doubles. The round trips therefore hold exactly, where the source can lose one unit to rounding. Rounding and overflow of `parseInt` on very long digit runs are not modelled.
- The printing of a finite number that is not an integer below 10^21 is a `show` parameter, not JavaScript's shortest round-trip algorithm.
- ColorConversions.RgbToHsl: requires `HslDefined`. Outside 0..255 a saturation denominator can be zero, and the source then yields an infinite saturation, for which the model has no value.
- ColorMix.Mix: returns no colour for weights summing to zero, where the source's channels are NaN or infinite.
- ColorMix.Mix: the source tells an HSL argument from an RGB one by a missing `r` field at run time. The model makes that distinction a datatype (`MixColor`).
- EditorColorInput.ColorInput.OnChange: the user's pick is a parameter, and the element's value is its sanitised form. The browser's colour picker is not modelled.
- EditorColorInput.Sanitize: follows the Color state of the HTML Standard for six-digit simple colours. Later extensions of colour inputs (an alpha, other colour spaces) are not modelled.
- EditorColorInput.ColorInput.OnChange: the `change` callback handed to the constructor is a foreign call and is not modelled.
- EditorColorInput.ColorInput.constructor: the `data`, `name` and `label` parameters are not modelled. Neither are the element's creation, its `id` and the registration of the listener, which are DOM work.
- The regular expressions are recognised by dedicated scanners, not by a general engine. The `i` flag covers ASCII letters only, which is all the patterns contain.
