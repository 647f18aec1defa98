/** The f64 arithmetic the calculator engine relies on, with every finite f64 seen as an
    exact real number. Rounding, overflow and the sign of zero are not modelled; the
    non-finite values that division by zero and square roots of negatives produce are. */
module Float {
  import opened Wrappers

  /** An f64 register: an exact real, or one of the non-finite values (an infinity or NaN). */
  datatype F64 = Finite(value: real) | NonFinite

  /** A decimal digit, the operand a digit button passes to Append. */
  type Digit = d: int | 0 <= d <= 9

  /** What exact reals cannot determine about f64: its square root, and the value of the
      text of a number whose decimal expansion does not end within MaxPlaces places, with a
      digit written after it (f64 prints such a number rounded, which reals cannot say). */
  datatype Platform = Platform(sqrt: real -> real, appendToLongText: (real, Digit) -> real)

  /** The comparison `total == 0.0` of the source; never true of NaN or an infinity. */
  predicate IsZero(x: F64) {
    x == Finite(0.0)
  }

  /** `x + y` in f64: a non-finite total stays non-finite when a finite operand is added. */
  function Plus(x: F64, y: real): (r: F64)
    ensures r.NonFinite? <==> x.NonFinite?
    ensures r.Finite? ==> (r.value > x.value <==> y > 0.0)
  {
    match x
    case Finite(v) => Finite(v + y)
    case NonFinite => NonFinite
  }

  /** `x - y`; a non-finite total stays non-finite. */
  function Minus(x: F64, y: real): (r: F64)
    ensures r.NonFinite? <==> x.NonFinite?
    ensures r.Finite? ==> (r.value < x.value <==> y > 0.0)
  {
    match x
    case Finite(v) => Finite(v - y)
    case NonFinite => NonFinite
  }

  /** `x * y`; infinity times zero is NaN, so a non-finite total stays non-finite. */
  function Times(x: F64, y: real): (r: F64)
    ensures r.NonFinite? <==> x.NonFinite?
  {
    match x
    case Finite(v) => Finite(v * y)
    case NonFinite => NonFinite
  }

  /** `x / y`; dividing by zero gives an infinity or NaN rather than an error. */
  function Over(x: F64, y: real): (r: F64)
    ensures r.NonFinite? <==> x.NonFinite? || y == 0.0
  {
    match x
    case Finite(v) => if y == 0.0 then NonFinite else Finite(v / y)
    case NonFinite => NonFinite
  }

  /** Subtracting what was added gives the total back. */
  lemma MinusUndoesPlus(x: F64, y: real)
    ensures Minus(Plus(x, y), y) == x
  {
  }

  /** Dividing by a nonzero operand undoes multiplying by it. */
  lemma OverUndoesTimes(x: F64, y: real)
    requires y != 0.0
    ensures Over(Times(x, y), y) == x
  {
  }

  /** `y.powf(2.0)`: the square of a finite operand (overflow to infinity is not modelled). */
  function SquareOf(y: real): (r: F64)
    ensures r.Finite? && r.value >= 0.0
  {
    Finite(y * y)
  }

  /** `y.sqrt()`: NaN for a negative operand, otherwise the platform's square root. */
  function SquareRootOf(p: Platform, y: real): (r: F64)
    ensures r.NonFinite? <==> y < 0.0
    ensures r.Finite? ==> r.value == p.sqrt(y)
  {
    if y < 0.0 then NonFinite else Finite(p.sqrt(y))
  }

  /** `fract() == 0.0`: the number has no fractional part. */
  predicate IsWhole(x: real) {
    x.Floor as real == x
  }

  /** The sign the text of a number starts with: -1 after a leading '-', else 1. */
  function Sign(x: real): int {
    if x < 0.0 then -1 else 1
  }

  function Pow10(k: nat): (r: nat)
    ensures r > 0
  {
    if k == 0 then 1 else 10 * Pow10(k - 1)
  }

  /** x with its decimal point moved k places to the right. */
  function Shifted(x: real, k: nat): real {
    x * (Pow10(k) as real)
  }

  /** Every finite f64 has a decimal expansion of at most 1074 places (2^-1074 has exactly
      that many), so a longer expansion belongs to no f64. */
  const MaxPlaces: nat := 1074

  /** The least number of places j, from k on, after which x's decimal expansion ends. */
  function PlacesFrom(x: real, k: nat): (r: Option<nat>)
    requires k <= MaxPlaces
    decreases MaxPlaces - k
    ensures r.Some? ==> k <= r.value <= MaxPlaces && IsWhole(Shifted(x, r.value))
    ensures r.Some? ==> forall j :: k <= j < r.value ==> !IsWhole(Shifted(x, j))
    ensures r.None? ==> forall j :: k <= j <= MaxPlaces ==> !IsWhole(Shifted(x, j))
  {
    if IsWhole(Shifted(x, k)) then Some(k)
    else if k == MaxPlaces then None
    else PlacesFrom(x, k + 1)
  }

  /** The number of digits after the point in the decimal text of x (0 for a whole number). */
  function Places(x: real): Option<nat> {
    PlacesFrom(x, 0)
  }

  /** A whole number prints with no digit after the point. */
  lemma WholeHasNoPlaces(x: real)
    requires IsWhole(x)
    ensures Places(x) == Some(0)
  {
    assert Shifted(x, 0) == x;
  }

  /** The text of x followed by the digit d, read back as a number:
      `x.to_string() + &d.to_string()` parsed as f64. The digit lands one place to the right
      of the last digit x prints, away from zero for a negative x. */
  function ConcatDigit(p: Platform, x: real, d: Digit): real {
    match Places(x)
    case None => p.appendToLongText(x, d)
    case Some(k) =>
      if k == 0 then 10.0 * x + ((Sign(x) * d) as real)
      else x + ((Sign(x) * d) as real) / (Pow10(k + 1) as real)
  }

  /** Typing a digit after a number whose expansion ends moves it away from zero or leaves it;
      a zero typed after a fraction is lost, since it only adds a trailing zero to the text. */
  lemma ConcatDigitAwayFromZero(p: Platform, x: real, d: Digit)
    requires Places(x).Some?
    ensures x >= 0.0 ==> ConcatDigit(p, x, d) >= x
    ensures x < 0.0 ==> ConcatDigit(p, x, d) <= x
    ensures Places(x).value > 0 && d == 0 ==> ConcatDigit(p, x, d) == x
  {
    var k := Places(x).value;
    if k > 0 {
      var q := Pow10(k + 1) as real;
      assert (d as real) / q >= 0.0;
      SignedQuotient(x, d, q);
    }
  }

  /** A digit moved away from zero: added for a non-negative x, subtracted for a negative one. */
  lemma SignedQuotient(x: real, d: Digit, q: real)
    requires q != 0.0
    ensures x < 0.0 ==> x + ((Sign(x) * d) as real) / q == x - (d as real) / q
    ensures x >= 0.0 ==> x + ((Sign(x) * d) as real) / q == x + (d as real) / q
  {
    if x < 0.0 {
      assert (Sign(x) * d) as real == -(d as real);
      NegatedQuotient(d as real, q);
    }
  }

  lemma NegatedQuotient(d: real, q: real)
    requires q != 0.0
    ensures (-d) / q == -(d / q)
  {
  }

  /** After a whole number the digit becomes the new last digit: ten times x, plus or minus d. */
  lemma ConcatDigitOfWhole(p: Platform, x: real, d: Digit)
    requires IsWhole(x)
    ensures ConcatDigit(p, x, d) == 10.0 * x + ((Sign(x) * d) as real)
  {
    WholeHasNoPlaces(x);
  }

  /** The text of the whole number x, a point and the digit d, read back as a number:
      `x.to_string() + "." + &d.to_string()` parsed as f64. */
  function PointDigit(x: real, d: Digit): real
    requires IsWhole(x)
  {
    x + ((Sign(x) * d) as real) / 10.0
  }

  /** A digit after the point moves the number away from zero by less than one: a zero digit
      keeps it, any other digit makes it a fraction. */
  lemma PointDigitAwayFromZero(x: real, d: Digit)
    requires IsWhole(x)
    ensures d == 0 ==> PointDigit(x, d) == x
    ensures d != 0 ==> !IsWhole(PointDigit(x, d))
    ensures x >= 0.0 ==> PointDigit(x, d) >= x
    ensures x < 0.0 ==> PointDigit(x, d) <= x
  {
    var r := PointDigit(x, d);
    if d != 0 {
      if x >= 0.0 {
        assert x < r < x + 1.0;
        assert r.Floor == x.Floor;
      } else {
        assert x - 1.0 < r < x;
        assert r.Floor == x.Floor - 1;
      }
    }
  }
}
