/** The two text conversions digit entry goes through: `f64::to_string` of a whole number
    and `str::parse::<f64>` of the text it is extended to. The parser accepts what the engine
    can produce: an optional '-', digits, and optionally a point and more digits. */
module DecimalText {
  import opened Wrappers
  import opened Float

  predicate IsDigitChar(c: char) {
    '0' <= c <= '9'
  }

  function DigitChar(d: Digit): (c: char)
    ensures IsDigitChar(c)
  {
    ('0' as int + d) as char
  }

  function DigitValue(c: char): (d: Digit)
    requires IsDigitChar(c)
  {
    c as int - '0' as int
  }

  predicate AllDigits(s: string) {
    forall i :: 0 <= i < |s| ==> IsDigitChar(s[i])
  }

  /** The decimal digits of n, most significant first, with no leading zero. */
  function NatText(n: nat): (s: string)
    ensures |s| > 0 && AllDigits(s)
  {
    if n < 10 then [DigitChar(n)] else NatText(n / 10) + [DigitChar(n % 10)]
  }

  /** `to_string` of a whole f64: its digits, after a '-' when it is negative; no ".0". */
  function WholeText(i: int): string {
    if i < 0 then "-" + NatText(-i) else NatText(i)
  }

  /** The number a string of digits denotes. */
  function DigitsValue(s: string): nat
    requires AllDigits(s)
  {
    if s == [] then 0 else 10 * DigitsValue(s[..|s| - 1]) + DigitValue(s[|s| - 1])
  }

  /** The position of the first '.' in s, or |s| when there is none. */
  function PointIndex(s: string): (i: nat)
    ensures i <= |s|
    ensures i < |s| ==> s[i] == '.'
    ensures forall j :: 0 <= j < i ==> s[j] != '.'
  {
    if s == [] || s[0] == '.' then 0 else 1 + PointIndex(s[1..])
  }

  /** Parses digits with at most one point; at least one digit, on either side of the point. */
  function ParseUnsigned(s: string): (r: Option<real>)
    ensures r.Some? ==> r.value >= 0.0
    ensures r.None? <==> |s| == 0 || !AllDigits(s[..PointIndex(s)])
                         || (PointIndex(s) < |s| && (!AllDigits(s[PointIndex(s) + 1..]) || |s| == 1))
  {
    var i := PointIndex(s);
    var whole := s[..i];
    var fraction := if i < |s| then s[i + 1..] else [];
    if !AllDigits(whole) || !AllDigits(fraction) || |whole| + |fraction| == 0 then None
    else Some(PointValue(DigitsValue(whole), DigitsValue(fraction), |fraction|))
  }

  /** The number written as the digits of whole, a point, and the digits of fraction padded
      to places digits. */
  function PointValue(whole: nat, fraction: nat, places: nat): (r: real)
    ensures r >= whole as real
  {
    QuotientNonNegative(fraction as real, Pow10(places) as real);
    whole as real + (fraction as real) / (Pow10(places) as real)
  }

  lemma QuotientNonNegative(a: real, b: real)
    requires a >= 0.0 && b > 0.0
    ensures a / b >= 0.0
  {
  }

  /** `str::parse::<f64>` on the texts above; None is the error the source unwraps. */
  function Parse(s: string): (r: Option<real>)
    ensures r.Some? && |s| > 0 && s[0] == '-' ==> r.value <= 0.0
    ensures r.Some? && !(|s| > 0 && s[0] == '-') ==> r.value >= 0.0
  {
    if |s| > 0 && s[0] == '-' then
      match ParseUnsigned(s[1..])
      case None => None
      case Some(v) => Some(-v)
    else ParseUnsigned(s)
  }

  /** Reading back the digits of n gives n. */
  lemma {:induction false} NatTextRoundTrip(n: nat)
    ensures DigitsValue(NatText(n)) == n
  {
    if n >= 10 {
      var s := NatText(n / 10) + [DigitChar(n % 10)];
      assert s[..|s| - 1] == NatText(n / 10);
      NatTextRoundTrip(n / 10);
    }
  }

  /** Digits followed by one more digit denote ten times as much plus that digit. */
  lemma DigitsValueSnoc(s: string, d: Digit)
    requires AllDigits(s)
    ensures AllDigits(s + [DigitChar(d)])
    ensures DigitsValue(s + [DigitChar(d)]) == 10 * DigitsValue(s) + d
  {
    assert (s + [DigitChar(d)])[..|s|] == s;
  }

  /** A string of digits has no point, so all of it is the whole part. */
  lemma NoPointInDigits(s: string)
    requires AllDigits(s)
    ensures PointIndex(s) == |s|
  {
    if PointIndex(s) < |s| {
      assert IsDigitChar(s[PointIndex(s)]);
    }
  }

  /** Digits of n followed by the digit d parse as the number 10 * n + d. */
  lemma ParseNatThenDigit(n: nat, d: Digit)
    ensures ParseUnsigned(NatText(n) + [DigitChar(d)]) == Some((10 * n + d) as real)
  {
    var digits := NatText(n) + [DigitChar(d)];
    DigitsValueSnoc(NatText(n), d);
    NatTextRoundTrip(n);
    NoPointInDigits(digits);
    assert digits[..|digits|] == digits;
  }

  /** Digits, a point and digits, with at least one digit, parse as the number they spell. */
  lemma ParseAtPoint(s: string, whole: string, fraction: string)
    requires s == whole + "." + fraction
    requires AllDigits(whole) && AllDigits(fraction) && |whole| + |fraction| > 0
    requires PointIndex(s) == |whole|
    ensures ParseUnsigned(s) == Some(PointValue(DigitsValue(whole), DigitsValue(fraction), |fraction|))
  {
    assert s[..|whole|] == whole;
    assert s[|whole| + 1..] == fraction;
  }

  /** Digits, a point and more digits parse as the whole digits plus the fraction digits
      shifted right by their number. */
  lemma ParseDigitsPointDigits(whole: string, fraction: string)
    requires AllDigits(whole) && |whole| > 0 && AllDigits(fraction)
    ensures ParseUnsigned(whole + "." + fraction)
            == Some(PointValue(DigitsValue(whole), DigitsValue(fraction), |fraction|))
  {
    PointIndexAfterDigits(whole, "." + fraction);
    assert whole + "." + fraction == whole + ("." + fraction);
    ParseAtPoint(whole + "." + fraction, whole, fraction);
  }

  /** Digits of n, a point and the digits t parse as n plus t's value shifted |t| places. */
  lemma ParseNatPointDigits(n: nat, t: string)
    requires AllDigits(t)
    ensures ParseUnsigned(NatText(n) + "." + t) == Some(PointValue(n, DigitsValue(t), |t|))
  {
    NatTextRoundTrip(n);
    ParseDigitsPointDigits(NatText(n), t);
  }

  /** Digits of n, a point and the digit d parse as the number n + d / 10. */
  lemma ParseNatPointDigit(n: nat, d: Digit)
    ensures ParseUnsigned(NatText(n) + "." + [DigitChar(d)]) == Some(n as real + (d as real) / 10.0)
  {
    ParseNatPointDigits(n, [DigitChar(d)]);
    assert DigitsValue([DigitChar(d)]) == d by {
      assert [DigitChar(d)][..0] == [];
    }
    assert Pow10(1) == 10;
    assert PointValue(n, d, 1) == n as real + (d as real) / 10.0;
  }

  /** The text path of Append for a whole current value: writing the digit after the text
      of x and parsing it back gives ConcatDigit(p, x, d), for every platform. */
  lemma ParseWholeThenDigit(p: Platform, x: real, d: Digit)
    requires IsWhole(x)
    ensures Parse(WholeText(x.Floor) + [DigitChar(d)]) == Some(ConcatDigit(p, x, d))
  {
    WholeHasNoPlaces(x);
    if x < 0.0 {
      var n: nat := -x.Floor;
      ParseNatThenDigit(n, d);
      assert ("-" + NatText(n) + [DigitChar(d)])[1..] == NatText(n) + [DigitChar(d)];
    } else {
      ParseNatThenDigit(x.Floor, d);
    }
  }

  /** The text path of Append just after Decimal: the text of the whole number x, a point and
      the digit, parsed back, gives PointDigit(x, d). */
  lemma ParseWholePointDigit(x: real, d: Digit)
    requires IsWhole(x)
    ensures Parse(WholeText(x.Floor) + "." + [DigitChar(d)]) == Some(PointDigit(x, d))
  {
    if x < 0.0 {
      ParseNegativeWholePointDigit(x, d);
    } else {
      ParseNatPointDigit(x.Floor, d);
    }
  }

  lemma ParseNegativeWholePointDigit(x: real, d: Digit)
    requires IsWhole(x) && x < 0.0
    ensures Parse(WholeText(x.Floor) + "." + [DigitChar(d)]) == Some(PointDigit(x, d))
  {
    var n: nat := -x.Floor;
    var t := NatText(n) + "." + [DigitChar(d)];
    ParseNatPointDigit(n, d);
    ParseNegative(t, n as real + (d as real) / 10.0);
    NegativeWholeText(x.Floor, [DigitChar(d)]);
    PointDigitOfNegative(x, n, d);
  }

  /** The text of a negative whole number followed by a point and more text. */
  lemma NegativeWholeText(i: int, more: string)
    requires i < 0
    ensures WholeText(i) + "." + more == "-" + (NatText(-i) + "." + more)
  {
  }

  lemma PointDigitOfNegative(x: real, n: nat, d: Digit)
    requires IsWhole(x) && x < 0.0 && n == -x.Floor
    ensures PointDigit(x, d) == -(n as real + (d as real) / 10.0)
  {
    NegatedQuotient(d as real, 10.0);
  }

  /** The first point of digits followed by a text starting with '.' is right after the digits. */
  lemma {:induction false} PointIndexAfterDigits(s: string, t: string)
    requires AllDigits(s) && |t| > 0 && t[0] == '.'
    ensures PointIndex(s + t) == |s|
  {
    if s != [] {
      assert (s + t)[1..] == s[1..] + t;
      PointIndexAfterDigits(s[1..], t);
    } else {
      assert s + t == t;
    }
  }

  /** The k digits of f, with leading zeros: the digits after the point. */
  function PaddedText(f: nat, k: nat): (s: string)
    ensures |s| == k && AllDigits(s)
  {
    if k == 0 then [] else PaddedText(f / 10, k - 1) + [DigitChar(f % 10)]
  }

  lemma {:induction false} PaddedTextRoundTrip(f: nat, k: nat)
    requires f < Pow10(k)
    ensures DigitsValue(PaddedText(f, k)) == f
  {
    if k > 0 {
      PaddedTextRoundTrip(f / 10, k - 1);
      DigitsValueSnoc(PaddedText(f / 10, k - 1), f % 10);
    }
  }

  /** `to_string` of a number whose decimal expansion ends: a '-' if it is negative, the
      digits of its whole part, and, unless it is whole, a point and exactly as many digits as
      the expansion has places (the last one nonzero). */
  function Text(x: real): (r: string)
    requires Places(x).Some?
    ensures |r| > 0 && (r[0] == '-' <==> x < 0.0)
  {
    PlacesText(x, Places(x).value)
  }

  /** The text of x written with k digits after the point (none when k is 0). */
  function PlacesText(x: real, k: nat): (r: string)
    ensures |r| > 0 && (r[0] == '-' <==> x < 0.0)
  {
    var magnitude := if x < 0.0 then -x else x;
    (if x < 0.0 then "-" else "")
      + NatText(magnitude.Floor)
      + (if k == 0 then "" else "." + PaddedText(FractionDigits(magnitude, k), k))
  }

  lemma ProductNonNegative(a: real, b: real)
    requires a >= 0.0 && b >= 0.0
    ensures a * b >= 0.0
  {
  }

  /** A whole number prints as WholeText: digits only. */
  lemma TextOfWhole(x: real)
    requires IsWhole(x)
    ensures Places(x).Some? && Text(x) == WholeText(x.Floor)
  {
    WholeHasNoPlaces(x);
    assert Shifted(if x < 0.0 then -x else x, 0) == if x < 0.0 then -x else x;
    if x < 0.0 {
      assert (-x).Floor == -x.Floor;
      assert "-" + NatText(-x.Floor) + "" == "-" + NatText(-x.Floor);
    } else {
      assert "" + NatText(x.Floor) + "" == NatText(x.Floor);
    }
  }

  /** The magnitude of x with its k places shifted into the whole part is a whole number. */
  lemma MagnitudeShiftedIsWhole(x: real, k: nat)
    requires IsWhole(Shifted(x, k))
    ensures IsWhole(Shifted(if x < 0.0 then -x else x, k))
  {
    if x < 0.0 {
      assert Shifted(-x, k) == -Shifted(x, k);
      assert (-Shifted(x, k)).Floor == -Shifted(x, k).Floor;
    }
  }

  /** For a non-negative a whose expansion ends after k places, its whole part and its k
      digits after the point, read back, give a again. */
  lemma SplitAtPoint(a: real, k: nat)
    requires a >= 0.0 && IsWhole(Shifted(a, k))
    ensures FractionDigits(a, k) < Pow10(k) && a == PointValue(a.Floor, FractionDigits(a, k), k)
  {
    FractionIsWhole(a, k);
    FractionBelow(a, k);
    FractionBack(a, k);
  }

  /** The digits after the point of a, shifted in front of it, form a whole number. */
  lemma FractionIsWhole(a: real, k: nat)
    requires IsWhole(Shifted(a, k))
    ensures IsWhole(Shifted(a - a.Floor as real, k))
  {
    ShiftDifference(a, a.Floor, k);
    WholeMinusInt(Shifted(a, k), a.Floor * Pow10(k));
  }

  lemma FractionBelow(a: real, k: nat)
    ensures 0.0 <= Shifted(a - a.Floor as real, k) < Pow10(k) as real
  {
    ScaleBound(a - a.Floor as real, Pow10(k) as real);
  }

  lemma FractionBack(a: real, k: nat)
    ensures a == a.Floor as real + Shifted(a - a.Floor as real, k) / (Pow10(k) as real)
  {
    ReadBack(a, a.Floor as real, Pow10(k) as real);
  }

  lemma ShiftDifference(a: real, w: int, k: nat)
    ensures Shifted(a - w as real, k) == Shifted(a, k) - (w * Pow10(k)) as real
  {
    var q := Pow10(k) as real;
    assert (w * Pow10(k)) as real == w as real * q;
    assert (a - w as real) * q == a * q - w as real * q;
  }

  /** A whole number minus an integer is whole. */
  lemma WholeMinusInt(y: real, m: int)
    requires IsWhole(y)
    ensures IsWhole(y - m as real)
  {
    assert (y - m as real).Floor == y.Floor - m;
  }

  /** A fraction of the unit scaled by a positive q stays below q. */
  lemma ScaleBound(e: real, q: real)
    requires 0.0 <= e < 1.0 && q > 0.0
    ensures 0.0 <= e * q < q
  {
    ProductNonNegative(e, q);
    assert q - e * q == (1.0 - e) * q;
    assert (1.0 - e) * q > 0.0;
  }

  lemma ReadBack(a: real, w: real, q: real)
    requires q != 0.0
    ensures a == w + ((a - w) * q) / q
  {
  }

  /** The digits after the point of a non-negative a whose expansion ends after k places. */
  function FractionDigits(a: real, k: nat): nat
    requires a >= 0.0
  {
    ProductNonNegative(a - a.Floor as real, Pow10(k) as real);
    Shifted(a - a.Floor as real, k).Floor
  }

  /** The text of a non-negative a with k > 0 places, followed by the digit d, parses as a with d
      one place further right. */
  lemma ParseFractionThenDigit(a: real, k: nat, d: Digit)
    requires a >= 0.0 && k > 0 && IsWhole(Shifted(a, k))
    ensures ParseUnsigned(NatText(a.Floor) + "." + (PaddedText(FractionDigits(a, k), k) + [DigitChar(d)]))
            == Some(a + (d as real) / (Pow10(k + 1) as real))
  {
    var f := FractionDigits(a, k);
    SplitAtPoint(a, k);
    PaddedTextRoundTrip(f, k);
    DigitsValueSnoc(PaddedText(f, k), d);
    var digits := PaddedText(f, k) + [DigitChar(d)];
    ParseNatPointDigits(a.Floor, digits);
    assert DigitsValue(digits) == 10 * f + d;
    assert |digits| == k + 1;
    PointValueStep(a.Floor, f, k, d);
    assert PointValue(a.Floor, DigitsValue(digits), |digits|) == a + (d as real) / (Pow10(k + 1) as real);
  }

  /** One more digit after the point: w.f followed by d is w.f plus d in the next place. */
  lemma PointValueStep(w: nat, f: nat, k: nat, d: Digit)
    ensures PointValue(w, 10 * f + d, k + 1) == PointValue(w, f, k) + (d as real) / (Pow10(k + 1) as real)
  {
    var q := Pow10(k) as real;
    assert Pow10(k + 1) as real == 10.0 * q;
    FractionStep(f as real, d as real, q);
  }

  lemma FractionStep(f: real, d: real, q: real)
    requires q > 0.0
    ensures (10.0 * f + d) / (10.0 * q) == f / q + d / (10.0 * q)
  {
  }

  /** The text path of Append after any number whose expansion ends: writing the digit after
      the text of x and parsing it back gives ConcatDigit(p, x, d), for every platform. */
  lemma ParseTextThenDigit(p: Platform, x: real, d: Digit)
    requires Places(x).Some?
    ensures Parse(Text(x) + [DigitChar(d)]) == Some(ConcatDigit(p, x, d))
  {
    if Places(x).value == 0 {
      assert IsWhole(x) by {
        assert Shifted(x, 0) == x;
      }
      TextOfWhole(x);
      ParseWholeThenDigit(p, x, d);
    } else {
      ParsePlacesThenDigit(p, x, d);
    }
  }

  /** ParseTextThenDigit for a number that is not whole. */
  lemma ParsePlacesThenDigit(p: Platform, x: real, d: Digit)
    requires Places(x).Some? && Places(x).value > 0
    ensures Parse(Text(x) + [DigitChar(d)]) == Some(ConcatDigit(p, x, d))
  {
    var k := Places(x).value;
    ParsePlacesTextThenDigit(x, k, d);
  }

  /** x written with k > 0 places, where its expansion ends, followed by the digit d, parses as
      x with d one place further right, away from zero. */
  lemma ParsePlacesTextThenDigit(x: real, k: nat, d: Digit)
    requires k > 0 && IsWhole(Shifted(x, k))
    ensures Parse(PlacesText(x, k) + [DigitChar(d)])
            == Some(x + ((Sign(x) * d) as real) / (Pow10(k + 1) as real))
  {
    if x < 0.0 {
      ParseNegativeShape(x, k, d);
    } else {
      ParseNonNegativeShape(x, k, d);
    }
  }

  lemma ParseNegativeShape(x: real, k: nat, d: Digit)
    requires x < 0.0 && k > 0 && IsWhole(Shifted(x, k))
    ensures Parse(PlacesText(x, k) + [DigitChar(d)])
            == Some(x + ((Sign(x) * d) as real) / (Pow10(k + 1) as real))
  {
    ParseNegativePlacesText(x, k, d);
    SignedQuotient(x, d, Pow10(k + 1) as real);
  }

  lemma ParseNonNegativeShape(x: real, k: nat, d: Digit)
    requires x >= 0.0 && k > 0 && IsWhole(Shifted(x, k))
    ensures Parse(PlacesText(x, k) + [DigitChar(d)])
            == Some(x + ((Sign(x) * d) as real) / (Pow10(k + 1) as real))
  {
    ParseNonNegativePlacesText(x, k, d);
    SignedQuotient(x, d, Pow10(k + 1) as real);
  }

  lemma ParseNonNegativePlacesText(a: real, k: nat, d: Digit)
    requires a >= 0.0 && k > 0 && IsWhole(Shifted(a, k))
    ensures Parse(PlacesText(a, k) + [DigitChar(d)]) == Some(a + (d as real) / (Pow10(k + 1) as real))
  {
    var rest := "." + (PaddedText(FractionDigits(a, k), k) + [DigitChar(d)]);
    NonNegativePlacesText(a, k, [DigitChar(d)]);
    ParseDigitsFirst(NatText(a.Floor), rest);
    ParseFractionThenDigit(a, k, d);
  }

  /** The text of a non-negative number followed by more text, as digits, a point and the rest. */
  lemma NonNegativePlacesText(a: real, k: nat, more: string)
    requires a >= 0.0 && k > 0
    ensures PlacesText(a, k) + more == NatText(a.Floor) + ("." + (PaddedText(FractionDigits(a, k), k) + more))
    ensures NatText(a.Floor) + ("." + (PaddedText(FractionDigits(a, k), k) + more))
            == NatText(a.Floor) + "." + (PaddedText(FractionDigits(a, k), k) + more)
  {
  }

  lemma ParseNegativePlacesText(x: real, k: nat, d: Digit)
    requires x < 0.0 && k > 0 && IsWhole(Shifted(x, k))
    ensures Parse(PlacesText(x, k) + [DigitChar(d)]) == Some(x - (d as real) / (Pow10(k + 1) as real))
  {
    var a := -x;
    MagnitudeShiftedIsWhole(x, k);
    NegativeSignedPlacesText(x, k, [DigitChar(d)]);
    ParseNegativeFraction(a, k, d);
  }

  /** NegativePlacesText, stated for the negative number itself. */
  lemma NegativeSignedPlacesText(x: real, k: nat, more: string)
    requires x < 0.0 && k > 0
    ensures PlacesText(x, k) + more == "-" + (NatText((-x).Floor) + "." + (PaddedText(FractionDigits(-x, k), k) + more))
  {
  }

  lemma ParseNegativeFraction(a: real, k: nat, d: Digit)
    requires a > 0.0 && k > 0 && IsWhole(Shifted(a, k))
    ensures Parse("-" + (NatText(a.Floor) + "." + (PaddedText(FractionDigits(a, k), k) + [DigitChar(d)])))
            == Some(-(a + (d as real) / (Pow10(k + 1) as real)))
  {
    ParseFractionThenDigit(a, k, d);
    ParseNegative(NatText(a.Floor) + "." + (PaddedText(FractionDigits(a, k), k) + [DigitChar(d)]),
                  a + (d as real) / (Pow10(k + 1) as real));
  }

  /** The text of a negative number followed by more text, as '-', digits, a point and the rest. */
  lemma NegativePlacesText(a: real, k: nat, more: string)
    requires a > 0.0 && k > 0
    ensures PlacesText(-a, k) + more == "-" + (NatText(a.Floor) + "." + (PaddedText(FractionDigits(a, k), k) + more))
  {
  }

  /** A '-' in front of an unsigned text negates its value. */
  lemma ParseNegative(s: string, v: real)
    requires ParseUnsigned(s) == Some(v)
    ensures Parse("-" + s) == Some(-v)
  {
    assert ("-" + s)[1..] == s;
  }

  /** A text starting with a digit is parsed without a sign. */
  lemma ParseDigitsFirst(s: string, t: string)
    requires |s| > 0 && AllDigits(s)
    ensures Parse(s + t) == ParseUnsigned(s + t)
  {
    assert (s + t)[0] == s[0];
  }

  /** Reading back the text of any number whose expansion ends gives the number: `to_string`
      followed by `parse` is the identity there. */
  lemma TextRoundTrip(x: real)
    requires Places(x).Some?
    ensures Parse(Text(x)) == Some(x)
  {
    var k := Places(x).value;
    if k == 0 {
      assert IsWhole(x) by {
        assert Shifted(x, 0) == x;
      }
      TextOfWhole(x);
      WholeTextRoundTrip(x);
    } else if x < 0.0 {
      MagnitudeShiftedIsWhole(x, k);
      NegativeTextRoundTrip(-x, k);
    } else {
      NonNegativeTextRoundTrip(x, k);
    }
  }

  lemma WholeTextRoundTrip(x: real)
    requires IsWhole(x)
    ensures Parse(WholeText(x.Floor)) == Some(x)
  {
    if x < 0.0 {
      ParseNat(-x.Floor);
      ParseNegative(NatText(-x.Floor), (-x.Floor) as real);
    } else {
      ParseNat(x.Floor);
      ParseDigitsFirst(NatText(x.Floor), []);
      assert NatText(x.Floor) + [] == NatText(x.Floor);
    }
  }

  lemma NegativeTextRoundTrip(a: real, k: nat)
    requires a > 0.0 && k > 0 && IsWhole(Shifted(a, k))
    ensures Parse(PlacesText(-a, k)) == Some(-a)
  {
    ParseFraction(a, k);
    NegativePlacesText(a, k, []);
    assert PaddedText(FractionDigits(a, k), k) + [] == PaddedText(FractionDigits(a, k), k);
    assert PlacesText(-a, k) + [] == PlacesText(-a, k);
    ParseNegative(NatText(a.Floor) + "." + PaddedText(FractionDigits(a, k), k), a);
  }

  lemma NonNegativeTextRoundTrip(a: real, k: nat)
    requires a >= 0.0 && k > 0 && IsWhole(Shifted(a, k))
    ensures Parse(PlacesText(a, k)) == Some(a)
  {
    ParseFraction(a, k);
    NonNegativePlacesText(a, k, []);
    assert PaddedText(FractionDigits(a, k), k) + [] == PaddedText(FractionDigits(a, k), k);
    assert PlacesText(a, k) + [] == PlacesText(a, k);
    ParseDigitsFirst(NatText(a.Floor), "." + PaddedText(FractionDigits(a, k), k));
  }

  /** The digits of n parse as n. */
  lemma ParseNat(n: nat)
    ensures ParseUnsigned(NatText(n)) == Some(n as real)
  {
    NoPointInDigits(NatText(n));
    NatTextRoundTrip(n);
    assert NatText(n)[..|NatText(n)|] == NatText(n);
  }

  /** The whole digits, a point and the k fraction digits of a non-negative a parse as a. */
  lemma ParseFraction(a: real, k: nat)
    requires a >= 0.0 && k > 0 && IsWhole(Shifted(a, k))
    ensures ParseUnsigned(NatText(a.Floor) + "." + PaddedText(FractionDigits(a, k), k)) == Some(a)
  {
    var f := FractionDigits(a, k);
    SplitAtPoint(a, k);
    PaddedTextRoundTrip(f, k);
    NatTextRoundTrip(a.Floor);
    ParseDigitsPointDigits(NatText(a.Floor), PaddedText(f, k));
  }
}
