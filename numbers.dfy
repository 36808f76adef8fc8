/**
 * Coordinate numbers. A stored value is either an integer (Python `int`,
 * printed without a point, as in `-70`) or a floating-point number, kept
 * here as a decimal: a sign, an integral part and the digits after the
 * point. Both render with nothing but a sign, digits and, for the decimal
 * only, one invariant `.` as decimal separator.
 */
module Numbers {

  type Digit = d: nat | d < 10

  datatype Num =
    | Integer(value: int)
    | Decimal(negative: bool, whole: nat, fraction: seq<Digit>)

  predicate IsDecimalDigit(ch: char) {
    '0' <= ch <= '9'
  }

  predicate IsNumChar(ch: char) {
    ch == '-' || ch == '.' || IsDecimalDigit(ch)
  }

  function DigitChar(d: Digit): (ch: char)
    ensures IsDecimalDigit(ch)
  {
    ('0' as int + d) as char
  }

  /** The shortest base-10 text of `n`: no leading zero except for `0` itself. */
  function DecimalText(n: nat): (s: string)
    ensures |s| >= 1
    ensures forall i :: 0 <= i < |s| ==> IsDecimalDigit(s[i])
    ensures s[0] != '0' || n == 0
  {
    if n < 10 then [DigitChar(n)] else DecimalText(n / 10) + [DigitChar(n % 10)]
  }

  function DigitValue(ch: char): nat {
    if IsDecimalDigit(ch) then ch as int - '0' as int else 0
  }

  /** Reads base-10 text back into a number. */
  function DecimalValue(s: string): nat {
    if s == [] then 0 else DecimalValue(s[..|s| - 1]) * 10 + DigitValue(s[|s| - 1])
  }

  lemma {:induction false} DecimalTextRoundTrip(n: nat)
    ensures DecimalValue(DecimalText(n)) == n
  {
    if n >= 10 {
      var s := DecimalText(n);
      assert s[..|s| - 1] == DecimalText(n / 10);
      DecimalTextRoundTrip(n / 10);
    }
  }

  function FractionText(ds: seq<Digit>): (s: string)
    ensures |s| == |ds|
    ensures forall i :: 0 <= i < |s| ==> IsDecimalDigit(s[i])
  {
    if ds == [] then [] else [DigitChar(ds[0])] + FractionText(ds[1..])
  }

  predicate AllDigits(s: string) {
    forall i :: 0 <= i < |s| ==> IsDecimalDigit(s[i])
  }

  predicate AllNumChars(s: string) {
    forall i :: 0 <= i < |s| ==> IsNumChar(s[i])
  }

  lemma DigitsHoldNoPoint(s: string)
    requires AllDigits(s)
    ensures AllNumChars(s)
    ensures '.' !in s && '-' !in s
  {
    assert forall i :: 0 <= i < |s| ==> s[i] != '.' && s[i] != '-';
  }

  lemma NumCharsHoldNoMarkup(s: string)
    requires AllNumChars(s)
    ensures ',' !in s && '<' !in s
  {
    assert forall i :: 0 <= i < |s| ==> s[i] != ',' && s[i] != '<';
  }

  lemma {:induction false} NumCharsConcat(a: string, b: string)
    requires AllNumChars(a) && AllNumChars(b)
    ensures AllNumChars(a + b)
  {
    var s := a + b;
    forall i | 0 <= i < |s| ensures IsNumChar(s[i]) {
      if i < |a| { assert s[i] == a[i]; } else { assert s[i] == b[i - |a|]; }
    }
  }

  /** Sign and digits: the shape of a rendered integer. */
  lemma {:induction false} IntegerTextShape(sign: string, whole: string)
    requires sign == "" || sign == "-"
    requires AllDigits(whole) && |whole| >= 1
    ensures AllNumChars(sign + whole)
    ensures multiset(sign + whole)['.'] == 0
    ensures (sign + whole)[0] == '-' <==> sign == "-"
  {
    DigitsHoldNoPoint(whole);
    assert AllNumChars(sign);
    NumCharsConcat(sign, whole);
    assert multiset(sign)['.'] == 0;
    assert multiset(whole)['.'] == 0;
    assert multiset(sign + whole) == multiset(sign) + multiset(whole);
    assert (sign + whole)[0] == if sign == "-" then '-' else whole[0];
  }

  /** Sign, digits, one point and digits: the shape of a rendered decimal. */
  lemma {:induction false} NumTextShape(sign: string, whole: string, fraction: string)
    requires sign == "" || sign == "-"
    requires AllDigits(whole) && |whole| >= 1 && AllDigits(fraction)
    ensures AllNumChars(sign + whole + "." + fraction)
    ensures multiset(sign + whole + "." + fraction)['.'] == 1
    ensures (sign + whole + "." + fraction)[0] == '-' <==> sign == "-"
  {
    DigitsHoldNoPoint(whole);
    DigitsHoldNoPoint(fraction);
    assert AllNumChars(sign);
    assert AllNumChars(".");
    NumCharsConcat(sign, whole);
    NumCharsConcat(sign + whole, ".");
    NumCharsConcat(sign + whole + ".", fraction);
    assert multiset(sign)['.'] == 0;
    assert multiset(whole)['.'] == 0 && multiset(fraction)['.'] == 0;
    assert multiset(sign + whole + "." + fraction) == multiset(sign) + multiset(whole) + multiset{'.'} + multiset(fraction);
    assert (sign + whole + "." + fraction)[0] == if sign == "-" then '-' else whole[0];
  }

  predicate IsNegative(n: Num) {
    match n
    case Integer(value) => value < 0
    case Decimal(negative, _, _) => negative
  }

  /**
   * The text of a coordinate inside the markup, as `str()` prints it: an
   * integer as `-` (when negative) and its digits; a decimal as `-` (when
   * negative), the integral digits, `.`, and the fractional digits (`0`
   * when there are none, as in `10.0`).
   */
  function FormatNum(n: Num): (s: string)
    ensures forall i :: 0 <= i < |s| ==> IsNumChar(s[i])
    ensures ',' !in s && '<' !in s
    ensures multiset(s)['.'] == if n.Decimal? then 1 else 0
    ensures |s| >= 1
    ensures s[0] == '-' <==> IsNegative(n)
  {
    match n
    case Integer(value) =>
      var sign := if value < 0 then "-" else "";
      var whole := DecimalText(if value < 0 then -value else value);
      IntegerTextShape(sign, whole);
      NumCharsHoldNoMarkup(sign + whole);
      sign + whole
    case Decimal(negative, units, fraction) =>
      var sign := if negative then "-" else "";
      var whole := DecimalText(units);
      var digits := if fraction == [] then "0" else FractionText(fraction);
      NumTextShape(sign, whole, digits);
      NumCharsHoldNoMarkup(sign + whole + "." + digits);
      sign + whole + "." + digits
  }

  /** An integer-valued field prints without a point: `-70` stays `-70`. */
  lemma IntegerPrintsWithoutPoint()
    ensures FormatNum(Integer(-70)) == "-70"
  {
    assert DecimalText(70) == DecimalText(7) + [DigitChar(0)];
  }
}
