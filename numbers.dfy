/**
 * Exact decimal amounts and their text. `BigDecimal` arithmetic is exact, so an
 * amount is a `real`; rounding to two places is `RoundingMode.HALF_UP`, and the
 * text is what `String.format(Locale.US, "%.2f", …)` and `String.valueOf(long)`
 * produce.
 */
module Numbers {
  import opened Wrappers

  function Abs(x: real): real {
    if x < 0.0 then -x else x
  }

  predicate IsDigit(c: char) {
    '0' <= c <= '9'
  }

  predicate AllDigits(s: string) {
    forall k :: 0 <= k < |s| ==> IsDigit(s[k])
  }

  function DigitChar(d: int): (c: char)
    requires 0 <= d < 10
    ensures IsDigit(c)
  {
    ('0' as int + d) as char
  }

  function DigitValue(c: char): (d: nat)
    requires IsDigit(c)
    ensures d < 10 && DigitChar(d) == c
  {
    (c as int - '0' as int)
  }

  /** `x` scaled to hundredths and rounded HALF_UP: to the nearest integer, a tie away from zero. */
  function HalfUpCents(x: real): (c: int)
    ensures -0.5 <= c as real - 100.0 * x <= 0.5
    ensures c as real - 100.0 * x == 0.5 ==> x > 0.0
    ensures c as real - 100.0 * x == -0.5 ==> x < 0.0
  {
    if x >= 0.0 then (100.0 * x + 0.5).Floor else -((-100.0 * x) + 0.5).Floor
  }

  /** HALF_UP is symmetric about zero: rounding the magnitude gives the magnitude of the rounding. */
  lemma HalfUpCentsOfAbs(x: real)
    ensures HalfUpCents(Abs(x)) == if HalfUpCents(x) < 0 then -HalfUpCents(x) else HalfUpCents(x)
  {
  }

  /** Decimal digits of `n` without leading zeros, as `String.valueOf` writes a non-negative `long`. */
  function NatToString(n: nat): (s: string)
    ensures |s| > 0 && AllDigits(s)
    ensures |s| > 1 ==> s[0] != '0'
    decreases n
  {
    if n < 10 then [DigitChar(n)] else NatToString(n / 10) + [DigitChar(n % 10)]
  }

  /** The number a string of decimal digits denotes. */
  function DigitsValue(s: string): nat
    requires AllDigits(s)
  {
    if |s| == 0 then 0 else DigitsValue(s[..|s| - 1]) * 10 + DigitValue(s[|s| - 1])
  }

  lemma {:induction false} NatToStringRoundTrip(n: nat)
    ensures DigitsValue(NatToString(n)) == n
    decreases n
  {
    if n >= 10 {
      NatToStringRoundTrip(n / 10);
      var s := NatToString(n);
      assert s[..|s| - 1] == NatToString(n / 10);
    }
  }

  /** A non-negative amount of hundredths as `%.2f` writes it: integer digits, a point, two digits. */
  function Unsigned2(n: nat): (s: string)
  {
    NatToString(n / 100) + "." + [DigitChar(n / 10 % 10), DigitChar(n % 10)]
  }

  /** `%.2f` of a `BigDecimal` already at scale 2 (after `setScale(2, HALF_UP)`), holding `c` hundredths. */
  function FormatCents(c: int): (s: string)
    ensures |s| > 0 && (s[0] == '-' <==> c < 0)
  {
    if c < 0 then "-" + Unsigned2(-c) else Unsigned2(c)
  }

  /**
   * `%.2f` of an unrounded `BigDecimal`: the formatter takes the sign of the
   * exact value and rounds its magnitude HALF_UP, so a negative amount that
   * rounds to zero is written "-0.00".
   */
  function FormatTotal(x: real): (s: string)
    ensures |s| > 0 && (s[0] == '-' <==> x < 0.0)
  {
    if x < 0.0 then "-" + Unsigned2(HalfUpCents(Abs(x))) else Unsigned2(HalfUpCents(x))
  }

  /** The characters `%.2f` writes: digits, a minus sign and the decimal point. */
  predicate IsNumeral(c: char) {
    IsDigit(c) || c == '-' || c == '.'
  }

  /** Neither a field separator nor a line break can appear in a formatted amount. */
  lemma FormatCentsChars(c: int)
    ensures forall ch :: ch in FormatCents(c) ==> IsNumeral(ch)
  {
    var n := if c < 0 then -c else c;
    assert AllDigits(NatToString(n / 100));
  }

  /** Reads a non-negative two-decimal text back into hundredths (a reference reader for the formats above). */
  function ParseUnsigned2(s: string): Option<nat>
  {
    if |s| >= 4 && s[|s| - 3] == '.' && AllDigits(s[..|s| - 3]) && IsDigit(s[|s| - 2]) && IsDigit(s[|s| - 1])
    then Some(DigitsValue(s[..|s| - 3]) * 100 + DigitValue(s[|s| - 2]) * 10 + DigitValue(s[|s| - 1]))
    else None
  }

  /** Reads an optionally negative two-decimal text back into hundredths. */
  function ParseFixed2(s: string): Option<int>
  {
    if |s| > 0 && s[0] == '-' then
      match ParseUnsigned2(s[1..])
      case Some(n) => Some(-(n as int))
      case None => None
    else
      match ParseUnsigned2(s)
      case Some(n) => Some(n)
      case None => None
  }

  lemma Unsigned2RoundTrip(n: nat)
    ensures |Unsigned2(n)| >= 4 && IsDigit(Unsigned2(n)[0])
    ensures ParseUnsigned2(Unsigned2(n)) == Some(n)
  {
    var s := Unsigned2(n);
    var w := NatToString(n / 100);
    assert s[..|s| - 3] == w;
    NatToStringRoundTrip(n / 100);
  }

  /** The ranking's number text reads back as the rounded amount it was made from. */
  lemma FormatCentsRoundTrip(c: int)
    ensures ParseFixed2(FormatCents(c)) == Some(c)
  {
    if c < 0 {
      Unsigned2RoundTrip(-c);
      assert ("-" + Unsigned2(-c))[1..] == Unsigned2(-c);
    } else {
      Unsigned2RoundTrip(c);
    }
  }

  /**
   * The total's text reads back as the exact total rounded HALF_UP to hundredths
   * ("-0.00" reads back as zero), and it has exactly two fractional digits.
   */
  lemma FormatTotalRoundTrip(x: real)
    ensures ParseFixed2(FormatTotal(x)) == Some(HalfUpCents(x))
    ensures var s := FormatTotal(x); |s| >= 4 && s[|s| - 3] == '.'
  {
    HalfUpCentsOfAbs(x);
    if x < 0.0 {
      var u := Unsigned2(HalfUpCents(Abs(x)));
      Unsigned2RoundTrip(HalfUpCents(Abs(x)));
      assert ("-" + u)[1..] == u;
    } else {
      Unsigned2RoundTrip(HalfUpCents(x));
    }
  }
}
