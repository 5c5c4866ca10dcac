/** Small facts about exact real arithmetic, kept apart so that the solver sees one
    product or quotient at a time. */
module RealFacts {

  function Max3(x: real, y: real, z: real): (m: real)
    ensures m == x || m == y || m == z
    ensures x <= m && y <= m && z <= m
  {
    if x >= y && x >= z then x else if y >= z then y else z
  }

  function Min3(x: real, y: real, z: real): (m: real)
    ensures m == x || m == y || m == z
    ensures m <= x && m <= y && m <= z
  {
    if x <= y && x <= z then x else if y <= z then y else z
  }

  function Min(x: real, y: real): real {
    if x <= y then x else y
  }

  function Max(x: real, y: real): real {
    if x >= y then x else y
  }

  /** A quotient whose numerator is within the denominator in magnitude lies in [-1, 1]. */
  lemma UnitQuotient(x: real, d: real)
    requires d > 0.0 && -d <= x <= d
    ensures -1.0 <= x / d <= 1.0
  {
    assert x / d * d == x;
  }

  /** A quotient of a non-negative number by a larger positive one lies in [0, 1]. */
  lemma FractionQuotient(x: real, d: real)
    requires d > 0.0 && 0.0 <= x <= d
    ensures 0.0 <= x / d <= 1.0
  {
    UnitQuotient(x, d);
    assert x / d * d == x;
  }

  /** The product `x * y` as a single term, so that a bound proved about it once is
      reused as it stands instead of being re-derived from the factors. */
  function Mul(x: real, y: real): real {
    x * y
  }

  /** A fraction (in [0, 1]) of a non-negative quantity lies between 0 and that quantity. */
  lemma PartOf(y: real, k: real)
    requires 0.0 <= k <= 1.0 && y >= 0.0
    ensures 0.0 <= Mul(y, k) <= y
  {
    assert y - y * k == y * (1.0 - k);
    assert y * (1.0 - k) >= 0.0;
  }

  /** A fraction (in [0, 1]) of a non-positive quantity lies between that quantity and 0. */
  lemma NegativePartOf(y: real, k: real)
    requires 0.0 <= k <= 1.0 && y <= 0.0
    ensures y <= Mul(y, k) <= 0.0
  {
    assert y * k - y == y * (k - 1.0);
    assert y * (k - 1.0) >= 0.0;
  }

  /** A quotient of two positive numbers is positive. */
  lemma PositiveQuotient(x: real, d: real)
    requires x > 0.0 && d > 0.0
    ensures x / d > 0.0
  {
    assert x / d * d == x;
  }

  /** Multiplying a quotient back by its divisor gives the dividend. */
  lemma CancelQuotient(x: real, y: real)
    requires y != 0.0
    ensures Mul(y, x / y) == x
  {
    assert x / y * y == x;
  }

  /** A quotient by a positive number has the sign of its dividend. */
  lemma QuotientSignOf(x: real, d: real)
    requires d > 0.0
    ensures x > 0.0 <==> x / d > 0.0
    ensures x == 0.0 <==> x / d == 0.0
  {
    var q := x / d;
    assert q * d == x;
    if q > 0.0 {
      assert q * d > 0.0;
    } else if q < 0.0 {
      assert (-q) * d > 0.0;
    }
  }

  /** How a quotient by a positive number compares with -1, 0 and 1. */
  lemma QuotientCompare(x: real, d: real)
    requires d > 0.0
    ensures x / d < 1.0 <==> x < d
    ensures x / d > -1.0 <==> x > -d
    ensures x / d >= 0.0 <==> x >= 0.0
    ensures x / d == 0.0 <==> x == 0.0
  {
    QuotientSignOf(x, d);
    QuotientSignOf(d - x, d);
    QuotientSignOf(x + d, d);
    QuotientOf(d - x, d, 1.0 - x / d);
    QuotientOf(x + d, d, x / d + 1.0);
  }

  /** The quotient is the one number that gives the dividend when multiplied back. */
  lemma QuotientOf(x: real, d: real, q: real)
    requires d > 0.0 && q * d == x
    ensures x / d == q
  {
    var e := x / d - q;
    assert e * d == x / d * d - q * d;
  }

  /** A product of non-negative numbers is non-negative. */
  lemma NonNegativeProduct(x: real, y: real)
    requires x >= 0.0 && y >= 0.0
    ensures Mul(x, y) >= 0.0
  {
  }

  /** A quotient by a positive number whose dividend lies between `lo` and `hi` times
      the divisor lies between `lo` and `hi`. */
  lemma QuotientBetween(n: real, w: real, lo: real, hi: real)
    requires w > 0.0 && Mul(lo, w) <= n <= Mul(hi, w)
    ensures lo <= n / w <= hi
  {
    QuotientCompare(n - Mul(lo, w), w);
    QuotientCompare(Mul(hi, w) - n, w);
    QuotientOf(Mul(lo, w), w, lo);
    QuotientOf(Mul(hi, w), w, hi);
    assert (n - Mul(lo, w)) / w == n / w - lo;
    assert (Mul(hi, w) - n) / w == hi - n / w;
  }

  /** The quotient by a non-zero number is the one number that gives the dividend
      when multiplied back. */
  lemma QuotientOfNonZero(x: real, d: real, q: real)
    requires d != 0.0 && q * d == x
    ensures x / d == q
  {
    var e := x / d - q;
    assert e * d == x / d * d - q * d;
  }

  /** A quotient `f` whose dividend is within the divisor in magnitude lies in
      [-1, 1], has the dividend's sign, and gives back the dividend (and its
      negation) when multiplied by the divisor. */
  lemma SignedFraction(x: real, d: real)
    requires d > 0.0 && -d <= x <= d
    ensures var f := x / d;
            -1.0 <= f <= 1.0 && (f >= 0.0 <==> x >= 0.0) &&
            Mul(d, f) == x && Mul(d, -f) == -x
  {
    CancelQuotient(x, d);
    QuotientCompare(x, d);
    UnitQuotient(x, d);
    assert Mul(d, -(x / d)) == -Mul(d, x / d);
  }
}
