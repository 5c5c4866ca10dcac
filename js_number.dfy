/** The JavaScript number and text primitives the colour code leans on: NaN,
    `Math.round`, the `%` operator, `parseInt`, `parseFloat` and the printing of a
    number inside a template string. Numbers are exact reals here, not doubles. */
module JsNumber {

  /** A JavaScript number as far as the colour code needs one: a finite value or NaN. */
  datatype Num = Fin(v: real) | NaN

  /** `x / d` for a positive constant `d`; NaN stays NaN. */
  function Over(x: Num, d: real): (r: Num)
    requires d > 0.0
    ensures r.NaN? <==> x.NaN?
    ensures x.Fin? ==> r.v * d == x.v
  {
    match x
    case NaN => NaN
    case Fin(v) => Fin(v / d)
  }

  /** `k * x` for a finite `k`; NaN stays NaN. */
  function Times(k: real, x: Num): (r: Num)
    ensures r.NaN? <==> x.NaN?
    ensures x.Fin? ==> r.v == k * x.v
  {
    match x
    case NaN => NaN
    case Fin(v) => Fin(k * v)
  }

  /** `x / d` where the divisor is zero only together with the dividend: `0 / 0` is NaN. */
  function Divide(x: real, d: real): (r: Num)
    requires d == 0.0 ==> x == 0.0
    ensures r.NaN? <==> d == 0.0
    ensures r.Fin? ==> r.v * d == x
  {
    if d == 0.0 then NaN else Fin(x / d)
  }

  /** `x + d` for a finite `d`; NaN stays NaN. */
  function Plus(x: Num, d: real): (r: Num)
    ensures r.NaN? <==> x.NaN?
    ensures x.Fin? ==> r.v - d == x.v
  {
    match x
    case NaN => NaN
    case Fin(v) => Fin(v + d)
  }

  function Abs(x: real): (r: real)
    ensures r >= 0.0 && (r == x || r == -x)
  {
    if x < 0.0 then -x else x
  }

  /** `Math.round`: the nearest integer, a half rounded up. */
  function Round(x: real): (n: int)
    ensures n as real - 0.5 <= x < n as real + 0.5
  {
    (x + 0.5).Floor
  }

  /** Rounding a number of thousandths to the nearest integer is integer division
      (rounding down) of that number plus 500 by 1000. */
  lemma RoundThousandths(n: int)
    ensures Round(n as real / 1000.0) == (n + 500) / 1000
  {
    var k := (n + 500) / 1000;
    assert 1000 * k <= n + 500 < 1000 * k + 1000;
    assert k as real - 0.5 <= n as real / 1000.0 < k as real + 0.5;
  }

  /** Truncation toward zero, as the JavaScript `%` operator uses it. */
  function Trunc(x: real): (n: int)
    ensures x >= 0.0 ==> n as real <= x < n as real + 1.0
    ensures x < 0.0 ==> n as real - 1.0 < x <= n as real
  {
    if x >= 0.0 then x.Floor else -((-x).Floor)
  }

  /** The JavaScript remainder `a % d` for a positive divisor, `a - d * trunc(a / d)`:
      it takes the sign of the dividend and its magnitude is below the divisor. */
  function Rem(a: real, d: real): (r: real)
    requires d > 0.0
    ensures a >= 0.0 ==> 0.0 <= r < d
    ensures a < 0.0 ==> -d < r <= 0.0
  {
    var q := a / d;
    QuotientSign(a, d);
    var k := q - Trunc(q) as real;
    if q >= 0.0 then FractionOf(k, d); k * d
    else NegativeFractionOf(k, d); k * d
  }

  /** Between `2n` and `2n + 2` the remainder by 2 is the distance from `2n`. */
  lemma RemTwo(a: real, n: int)
    requires 0 <= n && 2.0 * n as real <= a < 2.0 * n as real + 2.0
    ensures Rem(a, 2.0) == a - 2.0 * n as real
  {
    assert Trunc(a / 2.0) == n;
  }

  lemma QuotientSign(a: real, d: real)
    requires d > 0.0
    ensures a >= 0.0 <==> a / d >= 0.0
  {
    var q := a / d;
    assert a == q * d;
    if q < 0.0 {
      assert (-q) * d > 0.0;
      assert (-q) * d == -(q * d);
    }
  }

  /** A fraction in [0, 1) of a positive quantity lies in [0, that quantity). */
  lemma FractionOf(k: real, d: real)
    requires 0.0 <= k < 1.0 && d > 0.0
    ensures 0.0 <= k * d < d
  {
    assert d - k * d == (1.0 - k) * d;
  }

  lemma NegativeFractionOf(k: real, d: real)
    requires -1.0 < k <= 0.0 && d > 0.0
    ensures -d < k * d <= 0.0
  {
    FractionOf(-k, d);
    assert (-k) * d == -(k * d);
  }

  // ---------------------------------------------------------------------------
  // Digits

  predicate IsDigit(c: char) {
    '0' <= c <= '9'
  }

  /** A character of the regular-expression class `[a-f\d]` under the `i` flag. */
  predicate IsHexDigit(c: char) {
    IsDigit(c) || 'a' <= c <= 'f' || 'A' <= c <= 'F'
  }

  predicate AllDigits(s: string) {
    forall i | 0 <= i < |s| :: IsDigit(s[i])
  }

  predicate AllHexDigits(s: string) {
    forall i | 0 <= i < |s| :: IsHexDigit(s[i])
  }

  function DigitValue(c: char): (d: nat)
    requires IsDigit(c)
    ensures d < 10
  {
    (c as int - '0' as int) as nat
  }

  function HexDigitValue(c: char): (d: nat)
    requires IsHexDigit(c)
    ensures d < 16
    ensures IsDigit(c) ==> d == DigitValue(c)
  {
    if IsDigit(c) then DigitValue(c)
    else if 'a' <= c <= 'f' then (c as int - 'a' as int + 10) as nat
    else (c as int - 'A' as int + 10) as nat
  }

  /** `parseInt(s, 10)` of a non-empty run of decimal digits (exact, no double rounding). */
  function DecimalValue(s: string): nat
    requires AllDigits(s)
  {
    if s == [] then 0 else 10 * DecimalValue(s[..|s| - 1]) + DigitValue(s[|s| - 1])
  }

  /** `parseInt(s, 16)` of two hexadecimal digits: one byte. */
  function HexByte(hi: char, lo: char): (b: nat)
    requires IsHexDigit(hi) && IsHexDigit(lo)
    ensures b < 256
  {
    16 * HexDigitValue(hi) + HexDigitValue(lo)
  }

  function Pow10(n: nat): (p: nat)
    ensures p >= 1
  {
    if n == 0 then 1 else 10 * Pow10(n - 1)
  }

  /** The length of the longest prefix of `s` made of decimal digits. */
  function DigitSpan(s: string): (n: nat)
    ensures n <= |s|
    ensures AllDigits(s[..n])
    ensures n < |s| ==> !IsDigit(s[n])
  {
    if s == [] || !IsDigit(s[0]) then 0 else 1 + DigitSpan(s[1..])
  }

  /** A run of digits followed by a non-digit (or nothing) is exactly the digit prefix. */
  lemma {:induction false} DigitSpanOf(d: string, rest: string)
    requires AllDigits(d)
    requires rest == [] || !IsDigit(rest[0])
    ensures DigitSpan(d + rest) == |d|
  {
    if d != [] {
      assert (d + rest)[1..] == d[1..] + rest;
      DigitSpanOf(d[1..], rest);
    } else {
      assert d + rest == rest;
    }
  }

  /** A string of the regular-expression class `[\d.]`, the only text `parseFloat`
      is given here. */
  predicate IsDecimalText(s: string) {
    forall i | 0 <= i < |s| :: IsDigit(s[i]) || s[i] == '.'
  }

  /** `parseFloat` of a string of digits and dots: the longest prefix of the form
      `digits` or `digits.digits` with at least one digit; NaN when there is none. */
  function ParseFloat(s: string): (x: Num)
    requires IsDecimalText(s)
    ensures x.NaN? <==> s == [] || (s[0] == '.' && (|s| == 1 || !IsDigit(s[1])))
    ensures x.Fin? ==> x.v >= 0.0
  {
    var n := DigitSpan(s);
    var whole := DecimalValue(s[..n]) as real;
    if n < |s| && s[n] == '.' then
      var frac := s[n + 1..];
      var m := DigitSpan(frac);
      if n == 0 && m == 0 then NaN
      else Fin(whole + DecimalValue(frac[..m]) as real / Pow10(m) as real)
    else if n == 0 then NaN
    else Fin(whole)
  }

  /** On a non-empty run of digits `parseFloat` agrees with `parseInt`. */
  lemma ParseFloatOfDigits(s: string)
    requires s != [] && AllDigits(s)
    ensures IsDecimalText(s) && ParseFloat(s) == Fin(DecimalValue(s) as real)
  {
    DigitSpanOf(s, []);
    assert s + [] == s;
    assert s[..|s|] == s;
  }

  // ---------------------------------------------------------------------------
  // Printing a number in a template string

  function DigitChar(d: nat): (c: char)
    requires d < 10
    ensures IsDigit(c) && DigitValue(c) == d
  {
    ('0' as int + d) as char
  }

  /** The decimal text of a natural number, without leading zeros. */
  function NatText(n: nat): (t: string)
    ensures t != [] && AllDigits(t)
    ensures DecimalValue(t) == n
    ensures t[0] == '0' ==> n == 0
  {
    if n < 10 then [DigitChar(n)]
    else
      var t := NatText(n / 10) + [DigitChar(n % 10)];
      assert t[..|t| - 1] == NatText(n / 10);
      t
  }

  function IntText(i: int): (t: string)
    ensures i >= 0 ==> t == NatText(i)
    ensures i < 0 ==> t == "-" + NatText(-i)
  {
    if i < 0 then "-" + NatText(-i) else NatText(i)
  }

  /** A number JavaScript prints as a plain run of decimal digits: a non-negative
      integer below 10^21. */
  predicate IsWhole(x: real) {
    0.0 <= x < 1000000000000000000000.0 && x == x.Floor as real
  }

  /** The text of a number is a decimal that `parseFloat` reads back as the number. */
  predicate ReadsBack(x: Num, show: real -> string) {
    var t := NumberText(x, show);
    t != [] && IsDecimalText(t) && ParseFloat(t) == x
  }

  /** A whole number is printed as its digits, which read back as the number. */
  lemma WholeReadsBack(x: real, show: real -> string)
    requires IsWhole(x)
    ensures NumberText(Fin(x), show) == NatText(x.Floor)
    ensures DecimalValue(NatText(x.Floor)) as real == x
    ensures ReadsBack(Fin(x), show)
  {
    ParseFloatOfDigits(NatText(x.Floor));
  }

  /** `${x}`: JavaScript writes NaN as "NaN" and an integer below 10^21 in magnitude
      in plain decimal. Every other finite number is written by `show`, which stands
      for the shortest round-trip decimal form of a double. */
  function NumberText(x: Num, show: real -> string): (t: string)
    ensures x.NaN? ==> t == "NaN"
    ensures x.Fin? && 0.0 <= x.v < 1000000000000000000000.0 && x.v == x.v.Floor as real
            ==> t == NatText(x.v.Floor)
  {
    match x
    case NaN => "NaN"
    case Fin(v) =>
      if v == v.Floor as real && -1000000000000000000000.0 < v < 1000000000000000000000.0
      then IntText(v.Floor)
      else show(v)
  }
}
