/** The colour strings of `ColorUtils` (src/ts/Utils/ColorUtils.ts): `stringToRgba` and
    its faces `stringToRgb` and `stringToAlpha`, which read hexadecimal, `rgb()` /
    `rgba()` and `hsl()` / `hsla()` notations, and the `getStyleFrom*` functions that
    write `rgba()` and `hsla()` notations.

    The three regular expressions of the reader are recognised by hand: each is
    deterministic (no alternative a backtracking engine could take changes the
    outcome), so a match is computed by scanning forward. */
module ColorStrings {
  import opened Wrappers
  import opened JsNumber
  import opened ColorTypes
  import opened ColorConversions
  import opened HsvConversions
  import opened AlphaConversions

  // ---------------------------------------------------------------------------
  // Character classes

  /** The regular-expression class `\s`: white space and line terminators. */
  predicate IsSpace(c: char) {
    var n := c as int;
    (9 <= n <= 13) || n == 32 || n == 0xA0 || n == 0x1680 || (0x2000 <= n <= 0x200A) ||
    n == 0x2028 || n == 0x2029 || n == 0x202F || n == 0x205F || n == 0x3000 || n == 0xFEFF
  }

  /** The regular-expression class `[\d.]`. */
  predicate IsDecimalChar(c: char) {
    IsDigit(c) || c == '.'
  }

  /** The position after the run of white space starting at `i`. */
  function SkipSpaces(s: string, i: nat): (j: nat)
    requires i <= |s|
    ensures i <= j <= |s|
    ensures forall k | i <= k < j :: IsSpace(s[k])
    ensures j < |s| ==> !IsSpace(s[j])
    decreases |s| - i
  {
    if i < |s| && IsSpace(s[i]) then SkipSpaces(s, i + 1) else i
  }

  /** The position after the run of decimal digits starting at `i`. */
  function SkipDigits(s: string, i: nat): (j: nat)
    requires i <= |s|
    ensures i <= j <= |s|
    ensures forall k | i <= k < j :: IsDigit(s[k])
    ensures j < |s| ==> !IsDigit(s[j])
    decreases |s| - i
  {
    if i < |s| && IsDigit(s[i]) then SkipDigits(s, i + 1) else i
  }

  /** The position after the run of digits and dots starting at `i`. */
  function SkipDecimal(s: string, i: nat): (j: nat)
    requires i <= |s|
    ensures i <= j <= |s|
    ensures forall k | i <= k < j :: IsDecimalChar(s[k])
    ensures j < |s| ==> !IsDecimalChar(s[j])
    decreases |s| - i
  {
    if i < |s| && IsDecimalChar(s[i]) then SkipDecimal(s, i + 1) else i
  }

  /** The lower-case ASCII letter `lower` or its upper-case form, as the `i` flag
      matches it. */
  predicate LetterMatches(c: char, lower: char)
    requires 'a' <= lower <= 'z'
  {
    c == lower || c as int == lower as int - 32
  }

  // ---------------------------------------------------------------------------
  // The functional notations
  //
  //   /rgba?\(\s*(\d+)\s*,\s*(\d+)\s*,\s*(\d+)\s*(,\s*([\d.]+)\s*)?\)/i
  //   /hsla?\(\s*(\d+)\s*,\s*(\d+)%\s*,\s*(\d+)%\s*(,\s*([\d.]+)\s*)?\)/i

  /** The capture groups of a match: the three numbers and, when the optional group
      took part, the alpha text. */
  datatype Groups = Groups(first: string, second: string, third: string, alpha: Option<string>)

  /** What the patterns guarantee of their groups: the numbers are non-empty runs of
      digits and the alpha text a non-empty run of digits and dots. */
  predicate WellFormed(g: Groups) {
    g.first != [] && AllDigits(g.first) && g.second != [] && AllDigits(g.second) &&
    g.third != [] && AllDigits(g.third) &&
    (g.alpha.Some? ==> g.alpha.value != [] && IsDecimalText(g.alpha.value))
  }

  /** The bounds of a capture group in the text. */
  datatype Span = Span(start: nat, end: nat)

  /** Where a match put its capture groups. */
  datatype Captures = Captures(first: Span, second: Span, third: Span, alpha: Option<Span>)

  predicate Within(s: string, g: Span) {
    g.start < g.end <= |s|
  }

  predicate DigitsAt(s: string, g: Span) {
    Within(s, g) && AllDigits(s[g.start..g.end])
  }

  /** The pattern's guarantee, stated on the bounds of the groups. */
  predicate CapturesIn(s: string, c: Captures) {
    DigitsAt(s, c.first) && DigitsAt(s, c.second) && DigitsAt(s, c.third) &&
    (c.alpha.Some? ==> Within(s, c.alpha.value) && IsDecimalText(s[c.alpha.value.start..c.alpha.value.end]))
  }

  /** The texts of the groups, as `exec` hands them out. */
  function GroupsOf(s: string, c: Captures): (g: Groups)
    requires CapturesIn(s, c)
    ensures WellFormed(g)
  {
    Groups(s[c.first.start..c.first.end], s[c.second.start..c.second.end], s[c.third.start..c.third.end],
           match c.alpha
           case None => None
           case Some(a) => Some(s[a.start..a.end]))
  }

  /** Where a number field matched: the bounds of its digits and the position after
      it. */
  datatype FieldMatch = NoField | FieldAt(start: nat, end: nat, next: nat)

  /** One number field `\s*(\d+)`, followed by `%` when `percent`, then `\s*`. */
  function Field(s: string, i: nat, percent: bool): (f: FieldMatch)
    requires i <= |s|
    ensures f.FieldAt? ==> i <= f.start < f.end <= f.next <= |s| && AllDigits(s[f.start..f.end])
  {
    var a := SkipSpaces(s, i);
    var b := SkipDigits(s, a);
    if a == b then NoField
    else if !percent then FieldAt(a, b, SkipSpaces(s, b))
    else if b < |s| && s[b] == '%' then FieldAt(a, b, SkipSpaces(s, b + 1))
    else NoField
  }

  /** `,` at `k` and the field after it. */
  function NextField(s: string, k: nat, percent: bool): (f: FieldMatch)
    requires k <= |s|
    ensures f.FieldAt? ==> k < f.start < f.end <= f.next <= |s| && AllDigits(s[f.start..f.end])
  {
    if k < |s| && s[k] == ',' then Field(s, k + 1, percent) else NoField
  }

  /** Where the tail matched: the bounds of the alpha text when the optional group
      took part, and the position after the closing parenthesis. */
  datatype TailMatch = NoTail | Bare(next: nat) | WithAlpha(start: nat, end: nat, next: nat)

  /** The tail `(,\s*([\d.]+)\s*)?\)` from position `k`. The optional group is tried
      first; when it fails the parenthesis must come at `k` itself. */
  function Tail(s: string, k: nat): (t: TailMatch)
    requires k <= |s|
    ensures t.Bare? ==> t.next == k + 1 <= |s|
    ensures t.WithAlpha? ==> k < t.start < t.end < t.next <= |s| && IsDecimalText(s[t.start..t.end])
  {
    if k < |s| && s[k] == ',' then
      var a := SkipSpaces(s, k + 1);
      var b := SkipDecimal(s, a);
      var e := SkipSpaces(s, b);
      if a < b && e < |s| && s[e] == ')' then WithAlpha(a, b, e + 1) else NoTail
    else if k < |s| && s[k] == ')' then Bare(k + 1)
    else NoTail
  }

  /** The match of a functional notation named `name` (three lower-case letters,
      `rgb` or `hsl`) starting exactly at position `i`, if there is one; `percent`
      says whether the second and third numbers carry `%`. */
  function MatchAt(s: string, i: nat, name: string, percent: bool): (m: Option<Captures>)
    requires i <= |s| && |name| == 3 && forall k | 0 <= k < 3 :: 'a' <= name[k] <= 'z'
    ensures m.Some? ==> CapturesIn(s, m.value)
  {
    if !(i + 3 <= |s| && LetterMatches(s[i], name[0]) && LetterMatches(s[i + 1], name[1]) &&
         LetterMatches(s[i + 2], name[2]))
    then None
    else
      var j := if i + 3 < |s| && LetterMatches(s[i + 3], 'a') then i + 4 else i + 3;
      if !(j < |s| && s[j] == '(') then None
      else Arguments(s, j + 1, percent)
  }

  /** What follows the opening parenthesis: the first field, two more each after a
      comma, and the tail. */
  function Arguments(s: string, i: nat, percent: bool): (m: Option<Captures>)
    requires i <= |s|
    ensures m.Some? ==> CapturesIn(s, m.value)
  {
    var f1 := Field(s, i, false);
    if f1.NoField? then None
    else
      var f2 := NextField(s, f1.next, percent);
      if f2.NoField? then None
      else
        var f3 := NextField(s, f2.next, percent);
        if f3.NoField? then None
        else
          var numbers := Captures(Span(f1.start, f1.end), Span(f2.start, f2.end), Span(f3.start, f3.end), None);
          match Tail(s, f3.next)
          case NoTail => None
          case Bare(_) => Some(numbers)
          case WithAlpha(a, b, _) => Some(numbers.(alpha := Some(Span(a, b))))
  }

  /** `exec` of an unanchored pattern: the leftmost position from `i` on where the
      pattern matches, with where its groups are. */
  function FirstMatch(s: string, i: nat, name: string, percent: bool): (m: Option<(nat, Captures)>)
    requires i <= |s| && |name| == 3 && forall k | 0 <= k < 3 :: 'a' <= name[k] <= 'z'
    ensures m.Some? ==> i <= m.value.0 <= |s| && MatchAt(s, m.value.0, name, percent) == Some(m.value.1)
    decreases |s| - i
  {
    match MatchAt(s, i, name, percent)
    case Some(g) => Some((i, g))
    case None => if i == |s| then None else FirstMatch(s, i + 1, name, percent)
  }

  /** The match `exec` finds is the leftmost: the pattern matches at no earlier
      position, and nowhere at all when `exec` finds nothing. */
  lemma {:induction false} FirstMatchLeftmost(s: string, i: nat, name: string, percent: bool, k: nat)
    requires i <= |s| && |name| == 3 && forall k | 0 <= k < 3 :: 'a' <= name[k] <= 'z'
    requires i <= k <= |s|
    requires var m := FirstMatch(s, i, name, percent); m.None? || k < m.value.0
    ensures MatchAt(s, k, name, percent).None?
    decreases |s| - i
  {
    FirstMatchStep(s, i, name, percent);
    if k > i {
      FirstMatchLeftmost(s, i + 1, name, percent, k);
    }
  }

  /** One step of the search. */
  lemma FirstMatchStep(s: string, i: nat, name: string, percent: bool)
    requires i <= |s| && |name| == 3 && forall k | 0 <= k < 3 :: 'a' <= name[k] <= 'z'
    ensures var m := FirstMatch(s, i, name, percent);
            var here := MatchAt(s, i, name, percent);
            (here.Some? ==> m == Some((i, here.value))) &&
            (here.None? && i < |s| ==> m == FirstMatch(s, i + 1, name, percent)) &&
            (here.None? && i == |s| ==> m.None?)
  {
  }

  // ---------------------------------------------------------------------------
  // Hexadecimal notation
  //
  //   /^#?([a-f\d])([a-f\d])([a-f\d])([a-f\d])?$/i    expanded by doubling each digit
  //   /^#?([a-f\d]{2})([a-f\d]{2})([a-f\d]{2})([a-f\d]{2})?$/i

  /** The text after an optional leading `#`. */
  function HexDigitsOf(s: string): (d: string)
    ensures d == s || (s != [] && s[0] == '#' && d == s[1..])
  {
    if |s| > 0 && s[0] == '#' then s[1..] else s
  }

  /** Whether the whole text is the shorthand form: three or four hexadecimal digits
      after an optional `#`. */
  predicate IsShorthand(s: string) {
    var d := HexDigitsOf(s);
    (|d| == 3 || |d| == 4) && AllHexDigits(d)
  }

  /** Every character written twice. */
  function Doubled(d: string): (e: string)
    ensures |e| == 2 * |d|
    ensures forall i | 0 <= i < |e| :: e[i] == d[i / 2]
  {
    if d == [] then [] else [d[0], d[0]] + Doubled(d[1..])
  }

  /** The `replace` of the shorthand pattern: a shorthand text becomes its doubled
      digits (the `#` goes with the match); any other text is left as it is. */
  function ExpandShorthand(s: string): (e: string)
    ensures IsShorthand(s) ==>
            var d := HexDigitsOf(s); |e| == 2 * |d| && AllHexDigits(e) && HexDigitsOf(e) == e
    ensures !IsShorthand(s) ==> e == s
  {
    if IsShorthand(s) then Doubled(HexDigitsOf(s)) else s
  }

  /** The full hexadecimal pattern applied to a text: six or eight hexadecimal digits
      after an optional `#`, read as bytes; the alpha is the fourth byte over 255 when
      present and 1 otherwise. */
  function HexToRgba(s: string): (r: Option<Rgba>)
    ensures r.Some? <==> var d := HexDigitsOf(s); (|d| == 6 || |d| == 8) && AllHexDigits(d)
    ensures r.Some? ==> InGamut(r.value.color) && r.value.a.Fin? && 0.0 <= r.value.a.v <= 1.0
  {
    var d := HexDigitsOf(s);
    if (|d| == 6 || |d| == 8) && AllHexDigits(d) then
      var a := if |d| == 8 then Fin(HexByte(d[6], d[7]) as real / 255.0) else Fin(1.0);
      Some(Rgba(Rgb(HexByte(d[0], d[1]), HexByte(d[2], d[3]), HexByte(d[4], d[5])), a))
    else None
  }

  // ---------------------------------------------------------------------------
  // stringToRgba and its faces (src/ts/Utils/ColorUtils.ts:40-46, 341-385)

  predicate StartsWith(s: string, prefix: string) {
    |prefix| <= |s| && s[..|prefix|] == prefix
  }

  /** `parseFloat(result[5])`. The source guards it with `result.length > 4`, which
      holds for every match (the array has six slots), so a missing alpha group gives
      `parseFloat(undefined)`, NaN, and never the 1 of the other branch. */
  function AlphaOf(alpha: Option<string>): Num
    requires alpha.Some? ==> IsDecimalText(alpha.value)
  {
    match alpha
    case None => NaN
    case Some(t) => ParseFloat(t)
  }

  /** The source's `stringToRgba`. The branch is chosen by a case-sensitive prefix
      test, while the patterns themselves ignore case; the functional patterns are
      unanchored (leftmost match, trailing text ignored) and the hexadecimal ones are
      anchored. The numbers are not clamped. */
  function StringToRgba(input: string): (r: Option<Rgba>)
    ensures StartsWith(input, "rgb") ==> (r.Some? <==> FirstMatch(input, 0, "rgb", false).Some?)
    ensures !StartsWith(input, "rgb") && StartsWith(input, "hsl") ==>
            (r.Some? <==> FirstMatch(input, 0, "hsl", true).Some?)
    ensures !StartsWith(input, "rgb") && !StartsWith(input, "hsl") && r.Some? ==>
            InGamut(r.value.color) && r.value.a.Fin? && 0.0 <= r.value.a.v <= 1.0
  {
    if StartsWith(input, "rgb") then
      match FirstMatch(input, 0, "rgb", false)
      case None => None
      case Some((_, c)) =>
        var g := GroupsOf(input, c);
        Some(Rgba(Rgb(DecimalValue(g.first), DecimalValue(g.second), DecimalValue(g.third)),
                  AlphaOf(g.alpha)))
    else if StartsWith(input, "hsl") then
      match FirstMatch(input, 0, "hsl", true)
      case None => None
      case Some((_, c)) =>
        var g := GroupsOf(input, c);
        Some(HslaToRgba(Hsla(Hsl(Fin(DecimalValue(g.first) as real), DecimalValue(g.second) as real,
                                 DecimalValue(g.third) as real),
                             AlphaOf(g.alpha))))
    else HexToRgba(ExpandShorthand(input))
  }

  /** The source's `stringToRgb`: the same parse, seen as an RGB colour. */
  function StringToRgb(input: string): (r: Option<Rgb>)
    ensures r.Some? <==> StringToRgba(input).Some?
    ensures r.Some? ==> r.value == StringToRgba(input).value.color
  {
    match StringToRgba(input)
    case None => None
    case Some(c) => Some(c.color)
  }

  /** The source's `stringToAlpha`: the alpha of the same parse. */
  function StringToAlpha(input: string): (a: Option<Num>)
    ensures a.Some? <==> StringToRgba(input).Some?
    ensures a.Some? ==> a.value == StringToRgba(input).value.a
  {
    match StringToRgba(input)
    case None => None
    case Some(c) => Some(c.a)
  }

  /** The two faces together give back the whole parse: each finds something
      exactly when the other does, and then the colour and the alpha they return are
      those of `stringToRgba`. */
  lemma StringFacesAgree(input: string)
    ensures StringToRgb(input).Some? <==> StringToAlpha(input).Some?
    ensures StringToRgb(input).Some? ==>
            StringToRgba(input) == Some(Rgba(StringToRgb(input).value, StringToAlpha(input).value))
    ensures StringToRgb(input).None? ==> StringToRgba(input).None?
  {
  }

  // ---------------------------------------------------------------------------
  // getStyleFrom* (src/ts/Utils/ColorUtils.ts:267-292)
  //
  // `show` stands for JavaScript's printing of a finite number that is not an
  // integer below 10^21 (see `NumberText`).

  /** `opacity ?? 1`: a missing opacity is 1; a NaN one is kept. */
  function OpacityOr1(opacity: Option<Num>): Num {
    match opacity
    case None => Fin(1.0)
    case Some(x) => x
  }

  /** The template the formatters fill: `name`, `a(`, three numbers separated by `, `
      (the second and third followed by `unit`), `, `, the alpha and `)`. */
  function Notation(name: string, t1: string, t2: string, t3: string, unit: string, t4: string): string {
    name + ("a(" + (t1 + (", " + (t2 + (unit + (", " + (t3 + (unit + (", " + (t4 + ")"))))))))))
  }

  /** The shape of every notation written: the name and `a(` in front, `)` at the end. */
  lemma NotationShape(name: string, t1: string, t2: string, t3: string, unit: string, t4: string)
    requires |name| == 3
    ensures var t := Notation(name, t1, t2, t3, unit, t4);
            |t| > 5 && t[..5] == name + "a(" && t[|t| - 1] == ')'
  {
    var t := Notation(name, t1, t2, t3, unit, t4);
    assert t == (name + "a(") + (t1 + (", " + (t2 + (unit + (", " + (t3 + (unit + (", " + (t4 + ")")))))))));
  }

  /** The source's `getStyleFromRgb`: `rgba(r, g, b, a)`; a channel in 0..255 is
      written as its plain decimal digits. */
  function GetStyleFromRgb(color: Rgb, opacity: Option<Num>, show: real -> string): (t: string)
    ensures |t| > 5 && t[..5] == "rgba(" && t[|t| - 1] == ')'
    ensures InGamut(color) ==>
            t == Notation("rgb", NatText(color.r), NatText(color.g), NatText(color.b), "",
                          NumberText(OpacityOr1(opacity), show))
  {
    NotationShape("rgb", NumberText(Fin(color.r as real), show), NumberText(Fin(color.g as real), show),
                  NumberText(Fin(color.b as real), show), "", NumberText(OpacityOr1(opacity), show));
    Notation("rgb", NumberText(Fin(color.r as real), show), NumberText(Fin(color.g as real), show),
             NumberText(Fin(color.b as real), show), "", NumberText(OpacityOr1(opacity), show))
  }

  /** The source's `getStyleFromHsl`: `hsla(h, s%, l%, a)`. */
  function GetStyleFromHsl(color: Hsl, opacity: Option<Num>, show: real -> string): (t: string)
    ensures |t| > 5 && t[..5] == "hsla(" && t[|t| - 1] == ')'
    ensures color.h.NaN? ==> |t| > 8 && t[5..8] == "NaN"
  {
    NotationShape("hsl", NumberText(color.h, show), NumberText(Fin(color.s), show),
                  NumberText(Fin(color.l), show), "%", NumberText(OpacityOr1(opacity), show));
    Notation("hsl", NumberText(color.h, show), NumberText(Fin(color.s), show),
             NumberText(Fin(color.l), show), "%", NumberText(OpacityOr1(opacity), show))
  }

  /** The source's `getStyleFromHsv`: the HSL notation of the colour's HSL form, so
      an HSV colour is written as `hsla(...)` with its hue unchanged. */
  function GetStyleFromHsv(color: Hsv, opacity: Option<Num>, show: real -> string): (t: string)
    ensures |t| > 5 && t[..5] == "hsla(" && t[|t| - 1] == ')'
    ensures color.h.NaN? ==> |t| > 8 && t[5..8] == "NaN"
  {
    GetStyleFromHsl(HsvToHsl(color), opacity, show)
  }

  // ---------------------------------------------------------------------------
  // Reading back what the formatters write

  lemma {:induction false} SkipDigitsRun(s: string, i: nat, j: nat)
    requires i <= j <= |s| && forall k | i <= k < j :: IsDigit(s[k])
    requires j < |s| ==> !IsDigit(s[j])
    ensures SkipDigits(s, i) == j
    decreases j - i
  {
    if i < j {
      SkipDigitsRun(s, i + 1, j);
    }
  }

  lemma {:induction false} SkipDecimalRun(s: string, i: nat, j: nat)
    requires i <= j <= |s| && forall k | i <= k < j :: IsDecimalChar(s[k])
    requires j < |s| ==> !IsDecimalChar(s[j])
    ensures SkipDecimal(s, i) == j
    decreases j - i
  {
    if i < j {
      SkipDecimalRun(s, i + 1, j);
    }
  }

  /** A field made of `n` spaces, a run of digits and, when `percent`, a `%`, followed
      by a character that is neither a space nor (after a bare number) a digit. */
  lemma FieldRun(s: string, i: nat, percent: bool, a: nat, b: nat)
    requires i <= a < b < |s|
    requires forall k | i <= k < a :: IsSpace(s[k])
    requires AllDigits(s[a..b])
    requires percent ==> b + 1 < |s| && s[b] == '%' && !IsSpace(s[b + 1])
    requires !percent ==> !IsDigit(s[b]) && !IsSpace(s[b])
    ensures Field(s, i, percent) == FieldAt(a, b, if percent then b + 1 else b)
  {
    assert forall k | a <= k < b :: IsDigit(s[k]) by {
      forall k | a <= k < b
        ensures IsDigit(s[k])
      {
        assert s[a..b][k - a] == s[k];
      }
    }
    SkipSpacesRun(s, i, a);
    SkipDigitsRun(s, a, b);
    if percent {
      SkipSpacesRun(s, b + 1, b + 1);
    } else {
      SkipSpacesRun(s, b, b);
    }
  }

  lemma {:induction false} SkipSpacesRun(s: string, i: nat, j: nat)
    requires i <= j <= |s| && forall k | i <= k < j :: IsSpace(s[k])
    requires j < |s| ==> !IsSpace(s[j])
    ensures SkipSpaces(s, i) == j
    decreases j - i
  {
    if i < j {
      SkipSpacesRun(s, i + 1, j);
    }
  }

  /** One piece of a notation found at `o`: the text `t` up to `b`, the unit up to `e`,
      then `, ` and the rest. */
  lemma Piece(s: string, o: nat, t: string, unit: string, rest: string, b: nat, e: nat)
    requires o <= |s| && s[o..] == t + (unit + (", " + rest))
    requires b == o + |t| && e == b + |unit|
    ensures e + 2 <= |s|
    ensures s[o..b] == t
    ensures |unit| == 1 ==> s[b] == unit[0]
    ensures s[e] == ',' && s[e + 1] == ' '
    ensures s[e + 2..] == rest
  {
    var x := t + (unit + (", " + rest));
    assert s[o..b] == x[..|t|] == t;
    if |unit| == 1 {
      assert s[b] == x[|t|];
    }
    assert s[e] == x[|t| + |unit|];
    assert s[e + 1] == x[|t| + |unit| + 1];
    assert s[e + 2..] == x[|t| + |unit| + 2..] == rest;
  }

  /** The pattern of a functional notation matches the text the formatters write at
      its very start, and its groups are the four texts written. */
  lemma NotationMatch(name: string, t1: string, t2: string, t3: string, unit: string, t4: string, rest: string)
    requires |name| == 3 && forall k | 0 <= k < 3 :: 'a' <= name[k] <= 'z'
    requires t1 != [] && AllDigits(t1) && t2 != [] && AllDigits(t2) && t3 != [] && AllDigits(t3)
    requires t4 != [] && IsDecimalText(t4)
    requires unit == "" || unit == "%"
    ensures var s := Notation(name, t1, t2, t3, unit, t4) + rest;
            var m := MatchAt(s, 0, name, unit == "%");
            m.Some? && GroupsOf(s, m.value) == Groups(t1, t2, t3, Some(t4))
  {
    var s := Notation(name, t1, t2, t3, unit, t4) + rest;
    var r1 := t1 + (", " + (t2 + (unit + (", " + (t3 + (unit + (", " + (t4 + (")" + rest)))))))));
    assert s == name + ("a(" + r1);
    PiecesMatch(s, name, t1, t2, t3, unit, t4, rest);
  }

  /** The same, for any text that starts with the name and `a(` and goes on with the
      pieces. */
  lemma PiecesMatch(s: string, name: string, t1: string, t2: string, t3: string, unit: string, t4: string,
                    rest: string)
    requires |name| == 3 && forall k | 0 <= k < 3 :: 'a' <= name[k] <= 'z'
    requires t1 != [] && AllDigits(t1) && t2 != [] && AllDigits(t2) && t3 != [] && AllDigits(t3)
    requires t4 != [] && IsDecimalText(t4)
    requires unit == "" || unit == "%"
    requires s == name + ("a(" + (t1 + (", " + (t2 + (unit + (", " + (t3 + (unit + (", " + (t4 + (")" + rest)))))))))))
    ensures var m := MatchAt(s, 0, name, unit == "%");
            m.Some? && GroupsOf(s, m.value) == Groups(t1, t2, t3, Some(t4))
  {
    var pct := unit == "%";
    var k1 := 5 + |t1|;
    var a2 := k1 + 2;
    var b2 := a2 + |t2|;
    var k2 := b2 + |unit|;
    var a3 := k2 + 2;
    var b3 := a3 + |t3|;
    var k3 := b3 + |unit|;
    var a4 := k3 + 2;
    var b4 := a4 + |t4|;
    NotationHead(s, name, t1 + (", " + (t2 + (unit + (", " + (t3 + (unit + (", " + (t4 + (")" + rest))))))))));
    PiecesLayout(s, t1, t2, t3, unit, t4, rest, k1, a2, b2, k2, a3, b3, k3, a4, b4);
    MatchOfLayout(s, name, pct, k1, a2, b2, k2, a3, b3, k3, a4, b4);
  }

  /** The name and `a(` open a notation, and its arguments follow from position 5. */
  lemma NotationHead(s: string, name: string, args: string)
    requires |name| == 3 && s == name + ("a(" + args)
    ensures |s| == |args| + 5 && s[5..] == args
    ensures s[0] == name[0] && s[1] == name[1] && s[2] == name[2] && s[3] == 'a' && s[4] == '('
  {
    assert s[5..] == ("a(" + args)[2..];
  }

  /** Where the pieces of a notation's arguments sit. */
  lemma PiecesLayout(s: string, t1: string, t2: string, t3: string, unit: string, t4: string, rest: string,
                     k1: nat, a2: nat, b2: nat, k2: nat, a3: nat, b3: nat, k3: nat, a4: nat, b4: nat)
    requires unit == "" || unit == "%"
    requires 5 <= |s| && s[5..] == t1 + (", " + (t2 + (unit + (", " + (t3 + (unit + (", " + (t4 + (")" + rest)))))))))
    requires k1 == 5 + |t1| && a2 == k1 + 2 && b2 == a2 + |t2| && k2 == b2 + |unit|
    requires a3 == k2 + 2 && b3 == a3 + |t3| && k3 == b3 + |unit| && a4 == k3 + 2 && b4 == a4 + |t4|
    ensures |s| == b4 + 1 + |rest|
    ensures s[5..k1] == t1 && s[a2..b2] == t2 && s[a3..b3] == t3 && s[a4..b4] == t4
    ensures s[k1] == ',' && s[k1 + 1] == ' ' && s[k2] == ',' && s[k2 + 1] == ' ' &&
            s[k3] == ',' && s[k3 + 1] == ' ' && s[b4] == ')'
    ensures unit == "%" ==> s[b2] == '%' && s[b3] == '%'
  {
    var r4 := t4 + (")" + rest);
    var r3 := t3 + (unit + (", " + r4));
    var r2 := t2 + (unit + (", " + r3));
    assert s[5..] == t1 + ("" + (", " + r2));
    Piece(s, 5, t1, "", r2, k1, k1);
    Piece(s, a2, t2, unit, r3, b2, k2);
    Piece(s, a3, t3, unit, r4, b3, k3);
    assert s[a4..b4] == r4[..|t4|];
    assert s[b4] == r4[|t4|];
  }

  /** A text laid out as a functional notation matches the pattern at its start: the
      name and `a(`, digits up to `,` at `k1`, a space, digits from `a2` to `b2` and
      the unit up to `,` at `k2`, a space, digits from `a3` to `b3` and the unit up to
      `,` at `k3`, a space, and digits and dots from `a4` to `)` at `b4`; whatever
      follows is not looked at. */
  lemma MatchOfLayout(s: string, name: string, pct: bool, k1: nat, a2: nat, b2: nat, k2: nat,
                      a3: nat, b3: nat, k3: nat, a4: nat, b4: nat)
    requires |name| == 3 && forall k | 0 <= k < 3 :: 'a' <= name[k] <= 'z'
    requires 5 < k1 && a2 == k1 + 2 && a2 < b2 && k2 == (if pct then b2 + 1 else b2)
    requires a3 == k2 + 2 && a3 < b3 && k3 == (if pct then b3 + 1 else b3)
    requires a4 == k3 + 2 && a4 < b4 < |s|
    requires s[0] == name[0] && s[1] == name[1] && s[2] == name[2] && s[3] == 'a' && s[4] == '('
    requires s[k1] == ',' && s[k1 + 1] == ' ' && s[k2] == ',' && s[k2 + 1] == ' ' &&
             s[k3] == ',' && s[k3 + 1] == ' ' && s[b4] == ')'
    requires pct ==> s[b2] == '%' && s[b3] == '%'
    requires AllDigits(s[5..k1]) && AllDigits(s[a2..b2]) && AllDigits(s[a3..b3]) &&
             IsDecimalText(s[a4..b4])
    ensures MatchAt(s, 0, name, pct) ==
            Some(Captures(Span(5, k1), Span(a2, b2), Span(a3, b3), Some(Span(a4, b4))))
  {
    FirstFieldAt(s, k1);
    NextFieldAt(s, k1, pct, a2, b2, k2);
    NextFieldAt(s, k2, pct, a3, b3, k3);
    TailAt(s, k3, a4, b4);
    ArgumentsSteps(s, pct, 5, 5, k1, k1, a2, b2, k2, a3, b3, k3, a4, b4, b4 + 1);
    MatchAtArguments(s, name, pct);
  }

  /** The first number, digits from 5 up to `,` at `k`. */
  lemma FirstFieldAt(s: string, k: nat)
    requires 5 < k < |s| && s[k] == ','
    requires AllDigits(s[5..k])
    ensures Field(s, 5, false) == FieldAt(5, k, k)
  {
    FieldRun(s, 5, false, 5, k);
  }

  /** A later number: `, ` at `k`, digits from `a` to `b`, the unit, and `,` or `)`
      at `e`. */
  lemma NextFieldAt(s: string, k: nat, pct: bool, a: nat, b: nat, e: nat)
    requires a == k + 2 && a < b && e == (if pct then b + 1 else b) && e < |s|
    requires s[k] == ',' && s[k + 1] == ' ' && (s[e] == ',' || s[e] == ')')
    requires pct ==> s[b] == '%'
    requires AllDigits(s[a..b])
    ensures NextField(s, k, pct) == FieldAt(a, b, e)
  {
    FieldRun(s, k + 1, pct, a, b);
  }

  /** The alpha tail: `, ` at `k`, digits and dots from `a` to `)` at `b`. */
  lemma TailAt(s: string, k: nat, a: nat, b: nat)
    requires a == k + 2 && a < b < |s| && s[k] == ',' && s[k + 1] == ' ' && s[b] == ')'
    requires IsDecimalText(s[a..b])
    ensures Tail(s, k) == WithAlpha(a, b, b + 1)
  {
    forall i | a <= i < b
      ensures IsDecimalChar(s[i])
    {
      assert s[a..b][i - a] == s[i];
    }
    TailRun(s, k, a, b);
  }

  /** The alpha tail `, digits)` at `k`, with the digits from `a` to `b`. */
  lemma TailRun(s: string, k: nat, a: nat, b: nat)
    requires k < a < b < |s| && s[k] == ','
    requires forall i | k < i < a :: IsSpace(s[i])
    requires !IsSpace(s[a])
    requires forall i | a <= i < b :: IsDecimalChar(s[i])
    requires s[b] == ')'
    ensures Tail(s, k) == WithAlpha(a, b, b + 1)
  {
    SkipSpacesRun(s, k + 1, a);
    SkipDecimalRun(s, a, b);
    SkipSpacesRun(s, b, b);
  }

  /** Past `name` and `a(` the match is that of the arguments. */
  lemma MatchAtArguments(s: string, name: string, pct: bool)
    requires |name| == 3 && forall k | 0 <= k < 3 :: 'a' <= name[k] <= 'z'
    requires |s| > 5 && s[0] == name[0] && s[1] == name[1] && s[2] == name[2] && s[3] == 'a' && s[4] == '('
    ensures MatchAt(s, 0, name, pct) == Arguments(s, 5, pct)
  {
  }

  /** `Arguments` from the results of its steps. */
  lemma ArgumentsSteps(s: string, pct: bool, i: nat, a1: nat, b1: nat, k1: nat, a2: nat, b2: nat, k2: nat,
                       a3: nat, b3: nat, k3: nat, a4: nat, b4: nat, e: nat)
    requires i <= |s|
    requires Field(s, i, false) == FieldAt(a1, b1, k1)
    requires NextField(s, k1, pct) == FieldAt(a2, b2, k2)
    requires NextField(s, k2, pct) == FieldAt(a3, b3, k3)
    requires Tail(s, k3) == WithAlpha(a4, b4, e)
    ensures Arguments(s, i, pct) == Some(Captures(Span(a1, b1), Span(a2, b2), Span(a3, b3), Some(Span(a4, b4))))
  {
  }

  // ---------------------------------------------------------------------------
  // The notations without alpha

  /** The notation `name(t1, t2unit, t3unit)`, with no alpha. */
  function BareNotation(name: string, t1: string, t2: string, t3: string, unit: string): string {
    name + ("(" + (t1 + (", " + (t2 + (unit + (", " + (t3 + (unit + ")"))))))))
  }

  /** The pattern matches a notation without alpha at its very start; its groups are
      the three texts and the alpha group takes no part. */
  lemma BareNotationMatch(name: string, t1: string, t2: string, t3: string, unit: string, rest: string)
    requires |name| == 3 && forall k | 0 <= k < 3 :: 'a' <= name[k] <= 'z'
    requires t1 != [] && AllDigits(t1) && t2 != [] && AllDigits(t2) && t3 != [] && AllDigits(t3)
    requires unit == "" || unit == "%"
    ensures var s := BareNotation(name, t1, t2, t3, unit) + rest;
            var m := MatchAt(s, 0, name, unit == "%");
            m.Some? && GroupsOf(s, m.value) == Groups(t1, t2, t3, None)
  {
    var s := BareNotation(name, t1, t2, t3, unit) + rest;
    var args := t1 + (", " + (t2 + (unit + (", " + (t3 + (unit + (")" + rest)))))));
    assert s == name + ("(" + args);
    BarePiecesMatch(s, name, t1, t2, t3, unit, rest);
  }

  /** The same, for any text that starts with the name and `(` and goes on with the
      pieces. */
  lemma BarePiecesMatch(s: string, name: string, t1: string, t2: string, t3: string, unit: string, rest: string)
    requires |name| == 3 && forall k | 0 <= k < 3 :: 'a' <= name[k] <= 'z'
    requires t1 != [] && AllDigits(t1) && t2 != [] && AllDigits(t2) && t3 != [] && AllDigits(t3)
    requires unit == "" || unit == "%"
    requires s == name + ("(" + (t1 + (", " + (t2 + (unit + (", " + (t3 + (unit + (")" + rest)))))))))
    ensures var m := MatchAt(s, 0, name, unit == "%");
            m.Some? && GroupsOf(s, m.value) == Groups(t1, t2, t3, None)
  {
    var args := t1 + (", " + (t2 + (unit + (", " + (t3 + (unit + (")" + rest)))))));
    var pct := unit == "%";
    var k1 := 4 + |t1|;
    var a2 := k1 + 2;
    var b2 := a2 + |t2|;
    var k2 := b2 + |unit|;
    var a3 := k2 + 2;
    var b3 := a3 + |t3|;
    var k3 := b3 + |unit|;
    BareHead(s, name, args);
    BareLayout(s, t1, t2, t3, unit, rest, k1, a2, b2, k2, a3, b3, k3);
    BareMatchOfLayout(s, name, pct, k1, a2, b2, k2, a3, b3, k3);
  }

  /** The name and `(` open a notation without alpha; its arguments follow from
      position 4. */
  lemma BareHead(s: string, name: string, args: string)
    requires |name| == 3 && s == name + ("(" + args)
    ensures |s| == |args| + 4 && s[4..] == args
    ensures s[0] == name[0] && s[1] == name[1] && s[2] == name[2] && s[3] == '('
  {
    assert s[4..] == ("(" + args)[1..];
  }

  /** Where the pieces of the arguments of a notation without alpha sit. */
  lemma BareLayout(s: string, t1: string, t2: string, t3: string, unit: string, rest: string,
                   k1: nat, a2: nat, b2: nat, k2: nat, a3: nat, b3: nat, k3: nat)
    requires unit == "" || unit == "%"
    requires 4 <= |s| && s[4..] == t1 + (", " + (t2 + (unit + (", " + (t3 + (unit + (")" + rest)))))))
    requires k1 == 4 + |t1| && a2 == k1 + 2 && b2 == a2 + |t2| && k2 == b2 + |unit|
    requires a3 == k2 + 2 && b3 == a3 + |t3| && k3 == b3 + |unit|
    ensures k3 < |s|
    ensures s[4..k1] == t1 && s[a2..b2] == t2 && s[a3..b3] == t3
    ensures s[k1] == ',' && s[k1 + 1] == ' ' && s[k2] == ',' && s[k2 + 1] == ' ' && s[k3] == ')'
    ensures unit == "%" ==> s[b2] == '%' && s[b3] == '%'
  {
    var r3 := t3 + (unit + (")" + rest));
    var r2 := t2 + (unit + (", " + r3));
    assert s[4..] == t1 + ("" + (", " + r2));
    Piece(s, 4, t1, "", r2, k1, k1);
    Piece(s, a2, t2, unit, r3, b2, k2);
    assert s[a3..b3] == r3[..|t3|];
    if unit == "%" {
      assert s[b3] == r3[|t3|];
    }
    assert s[k3] == r3[|t3| + |unit|];
  }

  /** A text laid out as a notation without alpha matches the pattern at its start:
      the name and `(`, digits up to `,` at `k1`, a space, digits from `a2` to `b2`
      and the unit up to `,` at `k2`, a space, and digits from `a3` to `b3` and the
      unit up to `)` at `k3`. */
  lemma BareMatchOfLayout(s: string, name: string, pct: bool, k1: nat, a2: nat, b2: nat, k2: nat,
                          a3: nat, b3: nat, k3: nat)
    requires |name| == 3 && forall k | 0 <= k < 3 :: 'a' <= name[k] <= 'z'
    requires 4 < k1 && a2 == k1 + 2 && a2 < b2 && k2 == (if pct then b2 + 1 else b2)
    requires a3 == k2 + 2 && a3 < b3 && k3 == (if pct then b3 + 1 else b3) && k3 < |s|
    requires s[0] == name[0] && s[1] == name[1] && s[2] == name[2] && s[3] == '('
    requires s[k1] == ',' && s[k1 + 1] == ' ' && s[k2] == ',' && s[k2 + 1] == ' ' && s[k3] == ')'
    requires pct ==> s[b2] == '%' && s[b3] == '%'
    requires AllDigits(s[4..k1]) && AllDigits(s[a2..b2]) && AllDigits(s[a3..b3])
    ensures MatchAt(s, 0, name, pct) == Some(Captures(Span(4, k1), Span(a2, b2), Span(a3, b3), None))
  {
    FieldRun(s, 4, false, 4, k1);
    NextFieldAt(s, k1, pct, a2, b2, k2);
    NextFieldAt(s, k2, pct, a3, b3, k3);
    assert Tail(s, k3) == Bare(k3 + 1);
    BareArgumentsSteps(s, pct, 4, 4, k1, k1, a2, b2, k2, a3, b3, k3, k3 + 1);
    MatchAtBareArguments(s, name, pct);
  }

  /** Past `name` and `(` the match is that of the arguments. */
  lemma MatchAtBareArguments(s: string, name: string, pct: bool)
    requires |name| == 3 && forall k | 0 <= k < 3 :: 'a' <= name[k] <= 'z'
    requires |s| > 4 && s[0] == name[0] && s[1] == name[1] && s[2] == name[2] && s[3] == '('
    ensures MatchAt(s, 0, name, pct) == Arguments(s, 4, pct)
  {
  }

  /** `Arguments` from the results of its steps, when the alpha group takes no part. */
  lemma BareArgumentsSteps(s: string, pct: bool, i: nat, a1: nat, b1: nat, k1: nat, a2: nat, b2: nat, k2: nat,
                           a3: nat, b3: nat, k3: nat, e: nat)
    requires i <= |s|
    requires Field(s, i, false) == FieldAt(a1, b1, k1)
    requires NextField(s, k1, pct) == FieldAt(a2, b2, k2)
    requires NextField(s, k2, pct) == FieldAt(a3, b3, k3)
    requires Tail(s, k3) == Bare(e)
    ensures Arguments(s, i, pct) == Some(Captures(Span(a1, b1), Span(a2, b2), Span(a3, b3), None))
  {
  }

  /** The text of a notation without alpha starts with its name. */
  lemma BareNotationPrefix(name: string, t1: string, t2: string, t3: string, unit: string, rest: string)
    requires |name| == 3
    ensures StartsWith(BareNotation(name, t1, t2, t3, unit) + rest, name)
  {
    var s := BareNotation(name, t1, t2, t3, unit) + rest;
    assert s[..3] == name;
  }

  /** An `rgb()` notation without alpha, followed by any text, reads as the values of
      its three texts and a NaN alpha: the source never substitutes 1 for the missing
      alpha group. */
  lemma RgbBareRead(t1: string, t2: string, t3: string, rest: string)
    requires t1 != [] && AllDigits(t1) && t2 != [] && AllDigits(t2) && t3 != [] && AllDigits(t3)
    ensures StringToRgba(BareNotation("rgb", t1, t2, t3, "") + rest) ==
            Some(Rgba(Rgb(DecimalValue(t1), DecimalValue(t2), DecimalValue(t3)), NaN))
  {
    var s := BareNotation("rgb", t1, t2, t3, "") + rest;
    BareNotationMatch("rgb", t1, t2, t3, "", rest);
    var m := MatchAt(s, 0, "rgb", false);
    BareNotationPrefix("rgb", t1, t2, t3, "", rest);
    FirstMatchStep(s, 0, "rgb", false);
    assert FirstMatch(s, 0, "rgb", false) == Some((0, m.value));
    assert GroupsOf(s, m.value) == Groups(t1, t2, t3, None);
  }

  /** An `hsl()` notation without alpha, followed by any text, reads as the RGB form
      of its HSL colour with a NaN alpha. */
  lemma HslBareRead(t1: string, t2: string, t3: string, rest: string)
    requires t1 != [] && AllDigits(t1) && t2 != [] && AllDigits(t2) && t3 != [] && AllDigits(t3)
    ensures StringToRgba(BareNotation("hsl", t1, t2, t3, "%") + rest) ==
            Some(HslaToRgba(Hsla(Hsl(Fin(DecimalValue(t1) as real), DecimalValue(t2) as real,
                                     DecimalValue(t3) as real), NaN)))
  {
    var s := BareNotation("hsl", t1, t2, t3, "%") + rest;
    BareNotationMatch("hsl", t1, t2, t3, "%", rest);
    var m := MatchAt(s, 0, "hsl", true);
    BareNotationPrefix("hsl", t1, t2, t3, "%", rest);
    assert !StartsWith(s, "rgb") by {
      assert s[..3][2] == 'l';
    }
    FirstMatchStep(s, 0, "hsl", true);
    assert FirstMatch(s, 0, "hsl", true) == Some((0, m.value));
    assert GroupsOf(s, m.value) == Groups(t1, t2, t3, None);
  }

  /** The branch is chosen case-sensitively: an upper-case `RGB` or `HSL` text goes to
      the hexadecimal reader, which refuses it, although the patterns ignore case. */
  lemma UpperCaseRefused(s: string)
    requires StartsWith(s, "RGB") || StartsWith(s, "HSL")
    ensures StringToRgba(s).None?
  {
    assert s[0] == s[..3][0];
    assert !StartsWith(s, "rgb") && !StartsWith(s, "hsl");
  }

  // ---------------------------------------------------------------------------
  // Round trips through the formatters

  /** The text an RGB formatter writes starts with `rgb`, not `hsl`, and one written
      by the HSL formatter with `hsl`. */
  lemma NotationPrefix(name: string, t1: string, t2: string, t3: string, unit: string, t4: string, rest: string)
    requires |name| == 3
    ensures StartsWith(Notation(name, t1, t2, t3, unit, t4) + rest, name)
  {
    var s := Notation(name, t1, t2, t3, unit, t4) + rest;
    assert s[..3] == name;
  }

  /** An `rgba()` notation with digit runs for the channels and a decimal alpha,
      followed by any text, reads as the values of those texts, unclamped. */
  lemma RgbNotationRead(t1: string, t2: string, t3: string, t4: string, rest: string)
    requires t1 != [] && AllDigits(t1) && t2 != [] && AllDigits(t2) && t3 != [] && AllDigits(t3)
    requires t4 != [] && IsDecimalText(t4)
    ensures StringToRgba(Notation("rgb", t1, t2, t3, "", t4) + rest) ==
            Some(Rgba(Rgb(DecimalValue(t1), DecimalValue(t2), DecimalValue(t3)), ParseFloat(t4)))
  {
    var s := Notation("rgb", t1, t2, t3, "", t4) + rest;
    NotationMatch("rgb", t1, t2, t3, "", t4, rest);
    NotationPrefix("rgb", t1, t2, t3, "", t4, rest);
    FirstMatchStep(s, 0, "rgb", false);
  }

  /** An `hsla()` notation with digit runs for the numbers and a decimal alpha,
      followed by any text, reads as the RGB form of the HSL colour those texts give. */
  lemma HslNotationRead(t1: string, t2: string, t3: string, t4: string, rest: string)
    requires t1 != [] && AllDigits(t1) && t2 != [] && AllDigits(t2) && t3 != [] && AllDigits(t3)
    requires t4 != [] && IsDecimalText(t4)
    ensures StringToRgba(Notation("hsl", t1, t2, t3, "%", t4) + rest) ==
            Some(HslaToRgba(Hsla(Hsl(Fin(DecimalValue(t1) as real), DecimalValue(t2) as real,
                                     DecimalValue(t3) as real), ParseFloat(t4))))
  {
    var s := Notation("hsl", t1, t2, t3, "%", t4) + rest;
    NotationMatch("hsl", t1, t2, t3, "%", t4, rest);
    NotationPrefix("hsl", t1, t2, t3, "%", t4, rest);
    assert !StartsWith(s, "rgb") by {
      assert s[0] == 'h';
    }
    FirstMatchStep(s, 0, "hsl", true);
  }

  /** Reading back what `getStyleFromRgb` writes gives the colour and its opacity
      (1 when none is given), when the channels are in 0..255 and the opacity's text
      reads back as the opacity. */
  lemma RgbStyleRoundTrip(c: Rgb, opacity: Option<Num>, show: real -> string)
    requires InGamut(c)
    requires ReadsBack(OpacityOr1(opacity), show)
    ensures StringToRgba(GetStyleFromRgb(c, opacity, show)) == Some(Rgba(c, OpacityOr1(opacity)))
    ensures StringToRgb(GetStyleFromRgb(c, opacity, show)) == Some(c)
    ensures StringToAlpha(GetStyleFromRgb(c, opacity, show)) == Some(OpacityOr1(opacity))
  {
    WholeReadsBack(c.r as real, show);
    WholeReadsBack(c.g as real, show);
    WholeReadsBack(c.b as real, show);
    RgbNotationRead(NatText(c.r), NatText(c.g), NatText(c.b), NumberText(OpacityOr1(opacity), show), []);
    assert GetStyleFromRgb(c, opacity, show) + [] == GetStyleFromRgb(c, opacity, show);
  }

  /** Reading back what `getStyleFromHsl` writes gives the colour converted to RGB, and
      the opacity, when hue, saturation and lightness are whole numbers. */
  lemma HslStyleRoundTrip(c: Hsl, opacity: Option<Num>, show: real -> string)
    requires c.h.Fin? && IsWhole(c.h.v) && IsWhole(c.s) && IsWhole(c.l)
    requires ReadsBack(OpacityOr1(opacity), show)
    ensures StringToRgba(GetStyleFromHsl(c, opacity, show)) == Some(HslaToRgba(Hsla(c, OpacityOr1(opacity))))
  {
    WholeReadsBack(c.h.v, show);
    WholeReadsBack(c.s, show);
    WholeReadsBack(c.l, show);
    HslNotationRead(NatText(c.h.v.Floor), NatText(c.s.Floor), NatText(c.l.Floor),
                    NumberText(OpacityOr1(opacity), show), []);
    assert GetStyleFromHsl(c, opacity, show) + [] == GetStyleFromHsl(c, opacity, show);
  }

  /** Reading back what `getStyleFromHsv` writes gives the colour converted to RGB
      through its HSL form, when that form has whole numbers. */
  lemma HsvStyleRoundTrip(c: Hsv, opacity: Option<Num>, show: real -> string)
    requires var hsl := HsvToHsl(c); hsl.h.Fin? && IsWhole(hsl.h.v) && IsWhole(hsl.s) && IsWhole(hsl.l)
    requires ReadsBack(OpacityOr1(opacity), show)
    ensures StringToRgba(GetStyleFromHsv(c, opacity, show)) ==
            Some(HslaToRgba(Hsla(HsvToHsl(c), OpacityOr1(opacity))))
  {
    HslStyleRoundTrip(HsvToHsl(c), opacity, show);
  }

  /** Leaving the opacity out is the same as giving 1. */
  lemma DefaultOpacity(c: Rgb, h: Hsl, v: Hsv, show: real -> string)
    ensures GetStyleFromRgb(c, None, show) == GetStyleFromRgb(c, Some(Fin(1.0)), show)
    ensures GetStyleFromHsl(h, None, show) == GetStyleFromHsl(h, Some(Fin(1.0)), show)
    ensures GetStyleFromHsv(v, None, show) == GetStyleFromHsv(v, Some(Fin(1.0)), show)
  {
  }

  /** Without an opacity the formatters write alpha 1, which reads back as 1. */
  lemma DefaultOpacityReadsBack(show: real -> string)
    ensures ReadsBack(OpacityOr1(None), show)
  {
    WholeReadsBack(1.0, show);
  }

  // ---------------------------------------------------------------------------
  // The hexadecimal forms

  /** A text that starts with neither `rgb` nor `hsl` is read as hexadecimal, and it
      is accepted exactly when, after an optional `#`, it is three, four, six or eight
      hexadecimal digits. */
  lemma HexAccepted(s: string)
    requires !StartsWith(s, "rgb") && !StartsWith(s, "hsl")
    ensures StringToRgba(s).Some? <==>
            var d := HexDigitsOf(s); (|d| == 3 || |d| == 4 || |d| == 6 || |d| == 8) && AllHexDigits(d)
  {
    if IsShorthand(s) {
      var e := Doubled(HexDigitsOf(s));
      assert HexDigitsOf(e) == e by {
        assert IsHexDigit(e[0]);
      }
      assert AllHexDigits(e);
    }
  }

  /** A shorthand reads as its expansion: each digit `x`, doubled, is the byte
      `17 * x`, and a fourth digit gives that byte over 255 as alpha (1 without it). */
  lemma ShorthandValue(s: string)
    requires IsShorthand(s)
    ensures var d := HexDigitsOf(s);
            var a := if |d| == 4 then Fin((17 * HexDigitValue(d[3])) as real / 255.0) else Fin(1.0);
            StringToRgba(s) ==
            Some(Rgba(Rgb(17 * HexDigitValue(d[0]), 17 * HexDigitValue(d[1]), 17 * HexDigitValue(d[2])), a))
  {
    var d := HexDigitsOf(s);
    HexIsNotNotation(s);
    var e := Doubled(d);
    assert HexDigitsOf(e) == e by {
      assert IsHexDigit(e[0]);
    }
    assert e[0] == e[1] == d[0] && e[2] == e[3] == d[1] && e[4] == e[5] == d[2];
    if |d| == 4 {
      assert e[6] == e[7] == d[3];
    }
  }

  /** A six-digit text after an optional `#` reads as its three bytes with alpha 1,
      and an eight-digit one with the fourth byte over 255 as alpha. */
  lemma LongHexValue(s: string)
    requires var d := HexDigitsOf(s); (|d| == 6 || |d| == 8) && AllHexDigits(d)
    ensures var d := HexDigitsOf(s);
            var a := if |d| == 8 then Fin(HexByte(d[6], d[7]) as real / 255.0) else Fin(1.0);
            StringToRgba(s) == Some(Rgba(Rgb(HexByte(d[0], d[1]), HexByte(d[2], d[3]), HexByte(d[4], d[5])), a))
  {
    HexIsNotNotation(s);
  }

  /** A text of hexadecimal digits after an optional `#` starts with neither `rgb`
      nor `hsl`. */
  lemma HexIsNotNotation(s: string)
    requires var d := HexDigitsOf(s); d != [] && AllHexDigits(d)
    ensures !StartsWith(s, "rgb") && !StartsWith(s, "hsl")
  {
    if |s| >= 3 {
      assert s[0] == '#' || IsHexDigit(s[0]);
      assert s[..3][0] == s[0];
    }
  }
}
