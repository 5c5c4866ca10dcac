/** The colour input of the options editor (src/ts/Editors/EditorColorInput.ts): an
    `<input type="color">` whose background shows the colour it holds and whose text
    is black or white, whichever stands out against that colour. */
module EditorColorInput {
  import opened Wrappers
  import opened JsNumber
  import opened ColorTypes
  import opened ColorStrings

  /** The weighted brightness `Math.round((299 r + 587 g + 114 b) / 1000)`. */
  function Luminance(c: Rgb): (y: int)
    ensures y == (299 * c.r + 587 * c.g + 114 * c.b + 500) / 1000
  {
    var n := 299 * c.r + 587 * c.g + 114 * c.b;
    RoundThousandths(n);
    Round(n as real / 1000.0)
  }

  /** The text colour for a background colour: black on a background brighter than
      125, white otherwise. */
  function ContrastColor(c: Rgb): (t: string)
    ensures t == "#000" || t == "#fff"
    ensures t == "#000" <==> 299 * c.r + 587 * c.g + 114 * c.b >= 125500
  {
    if Luminance(c) > 125 then "#000" else "#fff"
  }

  /** The source's `textColor`: nothing for an absent value or one `stringToRgb`
      cannot read, and otherwise the contrasting colour of what it reads. */
  function TextColor(value: Option<string>): (t: Option<string>)
    ensures value.None? ==> t.None?
    ensures value.Some? ==> (t.None? <==> StringToRgb(value.value).None?)
    ensures t.Some? ==> t.value == ContrastColor(StringToRgb(value.value).value)
  {
    match value
    case None => None
    case Some(s) =>
      match StringToRgb(s)
      case None => None
      case Some(rgb) => Some(ContrastColor(rgb))
  }

  /** Black text is chosen exactly when the colour read has weighted sum at least
      125500, white text exactly when it is read and its sum is below that. */
  lemma TextColorThreshold(s: string)
    ensures TextColor(Some(s)) == Some("#000") <==>
            StringToRgb(s).Some? &&
            var c := StringToRgb(s).value; 299 * c.r + 587 * c.g + 114 * c.b >= 125500
    ensures TextColor(Some(s)) == Some("#fff") <==>
            StringToRgb(s).Some? &&
            var c := StringToRgb(s).value; 299 * c.r + 587 * c.g + 114 * c.b < 125500
  {
  }

  /** Raising channels never turns black text white: every weight is positive. */
  lemma ContrastMonotone(c: Rgb, d: Rgb)
    requires c.r <= d.r && c.g <= d.g && c.b <= d.b
    ensures ContrastColor(c) == "#000" ==> ContrastColor(d) == "#000"
    ensures ContrastColor(d) == "#fff" ==> ContrastColor(c) == "#fff"
  {
  }

  /** For a colour in 0..255 the brightness is in 0..255 too. */
  lemma LuminanceRange(c: Rgb)
    requires InGamut(c)
    ensures 0 <= Luminance(c) <= 255
  {
  }

  /** The style a text colour leaves behind: the new one when there is one, the old
      one otherwise. */
  function StyleColor(t: Option<string>, previous: string): (color: string)
    ensures t.Some? ==> color == t.value
    ensures t.None? ==> color == previous
  {
    match t
    case Some(c) => c
    case None => previous
  }

  // ---------------------------------------------------------------------------
  // The value of a colour input
  //
  // The element is an `<input type="color">` (src/ts/Editors/EditorColorInput.ts:32).
  // Whatever is assigned to its `value`, the browser keeps the result of the value
  // sanitisation algorithm of the HTML Standard's Color state (section 4.10.5.1.15,
  // "Color state (type=color)"): a valid simple colour, `#` and six hexadecimal
  // digits, is kept in ASCII lower case, and anything else becomes `#000000`.

  /** A valid simple colour: `#` followed by exactly six hexadecimal digits. */
  predicate IsSimpleColor(s: string) {
    |s| == 7 && s[0] == '#' && AllHexDigits(s[1..])
  }

  /** ASCII lower case of one character. */
  function LowerChar(c: char): (d: char)
    ensures !('A' <= d <= 'Z')
    ensures !('A' <= c <= 'Z') ==> d == c
  {
    if 'A' <= c <= 'Z' then (c as int + 32) as char else c
  }

  /** ASCII lower case of a text. */
  function Lower(s: string): (t: string)
    ensures |t| == |s|
    ensures forall i | 0 <= i < |s| :: t[i] == LowerChar(s[i])
  {
    if s == [] then [] else [LowerChar(s[0])] + Lower(s[1..])
  }

  /** Lower case keeps a hexadecimal digit one, with the same value. */
  lemma LowerHexDigit(c: char)
    requires IsHexDigit(c)
    ensures IsHexDigit(LowerChar(c)) && HexDigitValue(LowerChar(c)) == HexDigitValue(c)
  {
  }

  /** The browser's sanitising of a colour input's value. What it keeps is a valid
      simple colour in lower case, so `stringToRgb` always reads it. */
  function Sanitize(s: string): (t: string)
    ensures IsSimpleColor(t) && forall i | 0 <= i < |t| :: !('A' <= t[i] <= 'Z')
    ensures IsSimpleColor(s) ==> t == Lower(s)
    ensures !IsSimpleColor(s) ==> t == "#000000"
    ensures StringToRgb(t).Some?
  {
    var t := if IsSimpleColor(s) then Lower(s) else "#000000";
    LowerSimpleColor(s);
    SimpleColorReads(t);
    t
  }

  /** Lower case of a valid simple colour is one too, and `#000000` is one. */
  lemma LowerSimpleColor(s: string)
    ensures IsSimpleColor("#000000")
    ensures IsSimpleColor(s) ==> IsSimpleColor(Lower(s))
  {
    assert forall i | 0 <= i < |"#000000"[1..]| :: "#000000"[1..][i] == '0';
    if IsSimpleColor(s) {
      var t := Lower(s);
      forall i | 0 <= i < |t[1..]|
        ensures IsHexDigit(t[1..][i])
      {
        assert t[1..][i] == LowerChar(s[1..][i]);
        LowerHexDigit(s[1..][i]);
      }
    }
  }

  /** A simple colour takes the hexadecimal branch of `stringToRgba`, which reads its
      three bytes with alpha 1. */
  lemma SimpleColorReads(t: string)
    requires IsSimpleColor(t)
    ensures StringToRgba(t) == HexToRgba(t)
    ensures StringToRgb(t).Some?
  {
    assert HexDigitsOf(t) == t[1..];
    assert !StartsWith(t, "rgb") by { assert t[..3][0] == '#'; }
    assert !StartsWith(t, "hsl") by { assert t[..3][0] == '#'; }
    assert !IsShorthand(t);
    assert ExpandShorthand(t) == t;
  }

  /** Sanitising a valid simple colour does not change the colour `stringToRgb`
      reads from it: the `i` flag of the pattern reads upper and lower case alike. */
  lemma SanitizeKeepsColor(s: string)
    requires IsSimpleColor(s)
    ensures StringToRgba(Sanitize(s)) == StringToRgba(s)
  {
    var t := Sanitize(s);
    SimpleColorReads(s);
    SimpleColorReads(t);
    var d, e := HexDigitsOf(s), HexDigitsOf(t);
    assert d == s[1..] && e == t[1..];
    forall i | 0 <= i < 6
      ensures HexDigitValue(e[i]) == HexDigitValue(d[i])
    {
      assert e[i] == LowerChar(d[i]);
      LowerHexDigit(d[i]);
    }
  }

  /** Sanitising is idempotent: a value the element already holds is kept as it is. */
  lemma SanitizeIdempotent(s: string)
    ensures Sanitize(Sanitize(s)) == Sanitize(s)
  {
    var t := Sanitize(s);
    assert Lower(t) == t;
  }

  // ---------------------------------------------------------------------------
  // The element

  /** The editor item: its own copy of the value, the element's (sanitised) value and
      the element's two style properties. `color` starts empty, as an element's
      inline style does. */
  class ColorInput {
    var value: string
    var inputValue: string
    var backgroundColor: string
    var color: string

    /** The element holds a valid simple colour, the background shows it, and the
        text is the colour that stands out against it. */
    predicate Valid()
      reads this
    {
      IsSimpleColor(inputValue) && backgroundColor == inputValue &&
      StringToRgb(inputValue).Some? && color == ContrastColor(StringToRgb(inputValue).value)
    }

    /** The constructor keeps the given value, puts it into the element, which
        sanitises it, and styles the element from the element's value. */
    constructor (value: string)
      ensures Valid()
      ensures this.value == value && inputValue == Sanitize(value)
      ensures backgroundColor == Sanitize(value)
      ensures color == ContrastColor(StringToRgb(Sanitize(value)).value)
    {
      this.value := value;
      inputValue := Sanitize(value);
      backgroundColor := "";
      color := "";
      new;
      UpdateStyle(inputValue);
    }

    /** The source's `updateStyle`: the background always becomes the given text; the
        text colour changes only when `textColor` finds one, so it stays empty, black
        or white. */
    method UpdateStyle(bgColor: string)
      modifies this
      ensures backgroundColor == bgColor
      ensures color == StyleColor(TextColor(Some(bgColor)), old(color))
      ensures old(color) == "" || old(color) == "#000" || old(color) == "#fff" ==>
              color == "" || color == "#000" || color == "#fff"
      ensures value == old(value) && inputValue == old(inputValue)
    {
      backgroundColor := bgColor;
      var textColor := TextColor(Some(bgColor));
      if textColor.Some? {
        color := textColor.value;
      }
    }

    /** The `change` listener. The element's value after the user's pick is the
        sanitised `picked`; the editor stores it and restyles the element. */
    method OnChange(picked: string)
      requires Valid()
      modifies this
      ensures Valid()
      ensures inputValue == Sanitize(picked) && value == inputValue && backgroundColor == inputValue
      ensures color == ContrastColor(StringToRgb(inputValue).value)
    {
      inputValue := Sanitize(picked);
      value := inputValue;
      UpdateStyle(value);
    }
  }
}
