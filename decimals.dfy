/**
 * Python's `Decimal(text)` for the plain decimal notation: an optional sign,
 * digits and at most one decimal point, surrounded by optional white space.
 * A parsed number keeps its digits and the number of places after the point,
 * so its value is exact.
 */
module Decimals {
  import opened Wrappers
  import opened Text

  /** `(-1)^negative * coefficient * 10^-places`, as Python's Decimal stores it. */
  datatype Dec = Dec(negative: bool, coefficient: nat, places: nat)

  function Value(d: Dec): real {
    var magnitude := d.coefficient as real / Pow10(d.places) as real;
    if d.negative then -magnitude else magnitude
  }

  /** Index of the first '.' in `s`, or `|s|` when there is none. */
  function DotIndex(s: string): (k: nat)
    ensures k <= |s| && '.' !in s[..k]
    ensures k < |s| ==> s[k] == '.'
  {
    if s == [] then 0
    else if s[0] == '.' then 0
    else 1 + DotIndex(s[1..])
  }

  /** Every character is a digit or a point. */
  predicate DecimalChars(s: string) {
    forall i :: 0 <= i < |s| ==> IsDigit(s[i]) || s[i] == '.'
  }

  /** The digits-and-point part, without the sign. */
  function ParseUnsigned(negative: bool, body: string): (r: Option<Dec>)
    ensures r.Some? ==> |body| > 0 && DecimalChars(body)
  {
    var k := DotIndex(body);
    var whole := body[..k];
    var fraction := if k < |body| then body[k + 1..] else [];
    if AllDigits(whole) && AllDigits(fraction) && |whole| + |fraction| > 0
    then
      assert AllDigits(whole + fraction);
      Some(Dec(negative, DigitsValue(whole + fraction), |fraction|))
    else None
  }

  /**
   * The decimal-part grammar of Python's Decimal: `[sign] digits ['.' [digits]]`
   * or `[sign] '.' digits`; anything else is an InvalidOperation.
   */
  function Parse(s: string): (r: Option<Dec>)
    ensures r.Some? ==> |s| > 0 && (DecimalChars(s) || ((s[0] == '+' || s[0] == '-') && DecimalChars(s[1..])))
  {
    if |s| > 0 && (s[0] == '+' || s[0] == '-') then ParseUnsigned(s[0] == '-', s[1..])
    else ParseUnsigned(false, s)
  }

  /** `Decimal(text)` on a string: surrounding white space is ignored. */
  function FromText(s: string): Option<Dec> {
    Parse(Strip(s))
  }

  function SignText(negative: bool): string {
    if negative then "-" else ""
  }

  /** The text `sign whole '.' fraction`, with no point when `fraction` is empty. */
  function DecimalText(negative: bool, whole: string, fraction: string): string {
    SignText(negative) + UnsignedText(whole, fraction)
  }

  function UnsignedText(whole: string, fraction: string): string {
    whole + (if fraction == [] then "" else "." + fraction)
  }

  /** The digits of `whole` and `fraction` together make the coefficient; `fraction` gives the places. */
  lemma ParseParts(negative: bool, whole: string, fraction: string)
    requires AllDigits(whole) && AllDigits(fraction) && whole != []
    ensures AllDigits(whole + fraction)
    ensures Parse(DecimalText(negative, whole, fraction))
            == Some(Dec(negative, DigitsValue(whole + fraction), |fraction|))
  {
    ParseUnsignedParts(negative, whole, fraction);
    ParseSigned(negative, UnsignedText(whole, fraction), Dec(negative, DigitsValue(whole + fraction), |fraction|));
  }

  lemma ParseUnsignedParts(negative: bool, whole: string, fraction: string)
    requires AllDigits(whole) && AllDigits(fraction) && whole != []
    ensures AllDigits(whole + fraction)
    ensures ParseUnsigned(negative, UnsignedText(whole, fraction))
            == Some(Dec(negative, DigitsValue(whole + fraction), |fraction|))
  {
    assert AllDigits(whole + fraction);
    DotOfDigits(whole, fraction);
  }

  /** A sign in front of text that starts with a digit only negates. */
  lemma ParseSigned(negative: bool, body: string, d: Dec)
    requires |body| > 0 && IsDigit(body[0])
    requires ParseUnsigned(negative, body) == Some(d)
    ensures Parse(SignText(negative) + body) == Some(d)
  {
    var s := SignText(negative) + body;
    if negative {
      assert s[1..] == body;
    } else {
      assert s == body && !(s[0] == '+' || s[0] == '-');
    }
  }

  /**
   * The text `sign whole '.' fraction` denotes `whole + fraction / 10^|fraction|`,
   * negated for a minus sign.
   */
  lemma ParseMeaning(negative: bool, whole: string, fraction: string)
    requires AllDigits(whole) && AllDigits(fraction) && whole != []
    ensures Parse(DecimalText(negative, whole, fraction)).Some?
    ensures var magnitude := DigitsValue(whole) as real + DigitsValue(fraction) as real / Pow10(|fraction|) as real;
            Value(Parse(DecimalText(negative, whole, fraction)).value) == (if negative then -magnitude else magnitude)
  {
    ParseParts(negative, whole, fraction);
    DigitsValueAppend(whole, fraction);
    var d := Dec(negative, DigitsValue(whole + fraction), |fraction|);
    assert Parse(DecimalText(negative, whole, fraction)) == Some(d);
    ShiftedValue(negative, DigitsValue(whole), DigitsValue(fraction), |fraction|, d);
  }

  /** A coefficient `whole * 10^k + fraction` with `k` places is `whole + fraction / 10^k`. */
  lemma ShiftedValue(negative: bool, whole: nat, fraction: nat, k: nat, d: Dec)
    requires d == Dec(negative, whole * Pow10(k) + fraction, k)
    ensures var magnitude := whole as real + fraction as real / Pow10(k) as real;
            Value(d) == (if negative then -magnitude else magnitude)
  {
    CoefficientOverPower(whole, fraction, Pow10(k));
  }

  /** `(w * n + f) / n == w + f / n` over the reals. */
  lemma CoefficientOverPower(w: nat, f: nat, n: nat)
    requires n > 0
    ensures (w * n + f) as real / n as real == w as real + f as real / n as real
  {
    ProductAsReal(w, n);
    assert (w * n + f) as real == w as real * n as real + f as real;
    DivideShift(w as real, f as real, n as real);
  }

  lemma ProductAsReal(a: nat, b: nat)
    ensures (a * b) as real == a as real * b as real
  {
  }

  lemma DivideShift(w: real, f: real, p: real)
    requires p > 0.0
    ensures (w * p + f) / p == w + f / p
  {
  }

  /** In `whole '.' fraction` the first point is the one after `whole`. */
  lemma DotOfDigits(whole: string, fraction: string)
    requires AllDigits(whole) && AllDigits(fraction)
    ensures var body := whole + (if fraction == [] then "" else "." + fraction);
            DotIndex(body) == |whole| && body[..|whole|] == whole &&
            (if |whole| < |body| then body[|whole| + 1..] else []) == fraction
  {
    var body := whole + (if fraction == [] then "" else "." + fraction);
    DotIndexOfDigits(whole, if fraction == [] then "" else "." + fraction);
  }

  lemma {:induction false} DotIndexOfDigits(whole: string, rest: string)
    requires AllDigits(whole) && (rest == [] || rest[0] == '.')
    ensures DotIndex(whole + rest) == |whole|
    decreases |whole|
  {
    if whole != [] {
      assert (whole + rest)[1..] == whole[1..] + rest;
      DotIndexOfDigits(whole[1..], rest);
    } else {
      assert whole + rest == rest;
    }
  }

  /** Pads with leading zeros up to at least `width` digits. */
  function PadDigits(s: string, width: nat): (r: string)
    requires AllDigits(s)
    ensures AllDigits(r) && |r| >= width && |r| >= |s|
  {
    if |s| >= width then s else Zeros(width - |s|) + s
  }

  /**
   * The plain notation of a number with `places` digits after the point, never with
   * an exponent; Python's `str` switches to exponent notation for small numbers.
   */
  function Render(d: Dec): (s: string)
  {
    var full := PadDigits(NatToDigits(d.coefficient), d.places + 1);
    var whole := full[..|full| - d.places];
    var fraction := full[|full| - d.places..];
    DecimalText(d.negative, whole, fraction)
  }

  /** Rendering a number and parsing the text gives back the same number, digit for digit. */
  lemma RenderRoundTrip(d: Dec)
    ensures Parse(Render(d)) == Some(d)
  {
    var full := PadDigits(NatToDigits(d.coefficient), d.places + 1);
    var whole := full[..|full| - d.places];
    var fraction := full[|full| - d.places..];
    assert Render(d) == DecimalText(d.negative, whole, fraction);
    assert AllDigits(whole) && AllDigits(fraction) && whole != [] && |fraction| == d.places;
    ParseParts(d.negative, whole, fraction);
    assert whole + fraction == full;
    PaddedValue(d.coefficient, d.places + 1);
    assert DigitsValue(whole + fraction) == d.coefficient;
  }

  /** Zero-padding the digits of `n` keeps their value. */
  lemma PaddedValue(n: nat, width: nat)
    ensures DigitsValue(PadDigits(NatToDigits(n), width)) == n
  {
    var digits := NatToDigits(n);
    NatToDigitsRoundTrip(n);
    if |digits| < width {
      ZerosValue(width - |digits|, digits);
    }
  }

  /** Text surrounded by white space parses like the bare text, as `Decimal(" 1.5 ")` does. */
  lemma FromTextIgnoresSpace(pre: string, s: string, post: string)
    requires AllSpace(pre) && AllSpace(post) && Strip(s) == s
    ensures FromText(pre + s + post) == Parse(s)
  {
    if s == [] {
      assert AllSpace(pre + s + post);
      StripBlank(pre + s + post);
    } else {
      StripSurrounded(pre, s, post);
    }
  }
}
