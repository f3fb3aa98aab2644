/**
 * Calendar dates and the strict `MM.DD.YYYY` form the composer reads from a
 * post's heading (chrono's `NaiveDate::parse_from_str(s, "%m.%d.%Y")`),
 * with the proleptic Gregorian calendar's month lengths and leap years.
 */
module Dates {
  import opened Wrappers

  datatype Date = Date(year: int, month: int, day: int)

  predicate IsLeapYear(year: int)
  {
    year % 4 == 0 && (year % 100 != 0 || year % 400 == 0)
  }

  function DaysInMonth(year: int, month: int): (n: int)
    requires 1 <= month <= 12
    ensures 28 <= n <= 31
    ensures n == 29 <==> month == 2 && IsLeapYear(year)
  {
    if month == 2 then (if IsLeapYear(year) then 29 else 28)
    else if month == 4 || month == 6 || month == 9 || month == 11 then 30
    else 31
  }

  /** A day that exists in the calendar. */
  predicate IsValid(d: Date)
  {
    1 <= d.month <= 12 && 1 <= d.day <= DaysInMonth(d.year, d.month)
  }

  /** Chronological order: by year, then month, then day. */
  predicate Before(a: Date, b: Date)
  {
    a.year < b.year
    || (a.year == b.year && (a.month < b.month || (a.month == b.month && a.day < b.day)))
  }

  /** `Before` is a strict total order on dates. */
  lemma BeforeIsStrictTotalOrder(a: Date, b: Date, c: Date)
    ensures !Before(a, a)
    ensures Before(a, b) ==> !Before(b, a)
    ensures Before(a, b) && Before(b, c) ==> Before(a, c)
    ensures Before(a, b) || a == b || Before(b, a)
  {
  }

  predicate IsDigit(c: char)
  {
    '0' <= c <= '9'
  }

  predicate AllDigits(s: string)
  {
    forall i :: 0 <= i < |s| ==> IsDigit(s[i])
  }

  function DigitValue(c: char): (n: nat)
    requires IsDigit(c)
    ensures n < 10
  {
    c as int - '0' as int
  }

  function DigitChar(n: nat): (c: char)
    requires n < 10
    ensures IsDigit(c) && DigitValue(c) == n
  {
    ('0' as int + n) as char
  }

  function Pow10(n: nat): (p: nat)
    ensures p >= 1
  {
    if n == 0 then 1 else 10 * Pow10(n - 1)
  }

  /** The number a string of decimal digits denotes, most significant first. */
  function DecimalValue(s: string): (n: nat)
    requires AllDigits(s)
    ensures n < Pow10(|s|)
  {
    if s == [] then 0 else DecimalValue(s[..|s| - 1]) * 10 + DigitValue(s[|s| - 1])
  }

  /** `n` written with exactly `width` digits, padded with leading zeros. */
  function Digits(n: nat, width: nat): (s: string)
    ensures |s| == width && AllDigits(s)
  {
    if width == 0 then "" else Digits(n / 10, width - 1) + [DigitChar(n % 10)]
  }

  lemma {:induction false} DecimalValueOfDigits(n: nat, width: nat)
    requires n < Pow10(width)
    ensures DecimalValue(Digits(n, width)) == n
    decreases width
  {
    if width > 0 {
      var s := Digits(n, width);
      assert s[..|s| - 1] == Digits(n / 10, width - 1);
      DecimalValueOfDigits(n / 10, width - 1);
    }
  }

  lemma {:induction false} DigitsOfDecimalValue(s: string)
    requires AllDigits(s)
    ensures Digits(DecimalValue(s), |s|) == s
    decreases |s|
  {
    if s != [] {
      var init := s[..|s| - 1];
      var n := DecimalValue(s);
      assert n / 10 == DecimalValue(init) && n % 10 == DigitValue(s[|s| - 1]);
      DigitsOfDecimalValue(init);
      assert init + [s[|s| - 1]] == s;
    }
  }

  /** The date a string in the strict form `MM.DD.YYYY` names, if it names one. */
  function ParseDate(s: string): (r: Option<Date>)
    ensures r.Some? ==> IsValid(r.value) && 0 <= r.value.year < 10000
    ensures r.Some? ==> |s| == 10 && s[2] == '.' && s[5] == '.'
  {
    if |s| == 10 && s[2] == '.' && s[5] == '.'
       && AllDigits(s[..2]) && AllDigits(s[3..5]) && AllDigits(s[6..])
    then
      var d := Date(DecimalValue(s[6..]), DecimalValue(s[..2]), DecimalValue(s[3..5]));
      if IsValid(d) then Some(d) else None
    else None
  }

  /** A date written as `MM.DD.YYYY`, each field zero-padded. */
  function FormatDate(d: Date): (s: string)
    requires 0 <= d.year && 0 <= d.month && 0 <= d.day
    ensures |s| == 10
  {
    Digits(d.month, 2) + "." + Digits(d.day, 2) + "." + Digits(d.year, 4)
  }

  /** Every calendar date with a four-digit year is read back from its written form. */
  lemma ParseFormatDate(d: Date)
    requires IsValid(d) && 0 <= d.year < 10000
    ensures ParseDate(FormatDate(d)) == Some(d)
  {
    var s := FormatDate(d);
    assert s[..2] == Digits(d.month, 2);
    assert s[3..5] == Digits(d.day, 2);
    assert s[6..] == Digits(d.year, 4);
    DecimalValueOfDigits(d.month, 2);
    DecimalValueOfDigits(d.day, 2);
    DecimalValueOfDigits(d.year, 4);
  }

  /** A string accepted as a date is exactly that date's written form. */
  lemma FormatParsedDate(s: string)
    requires ParseDate(s).Some?
    ensures FormatDate(ParseDate(s).value) == s
  {
    DigitsOfDecimalValue(s[..2]);
    DigitsOfDecimalValue(s[3..5]);
    DigitsOfDecimalValue(s[6..]);
    assert s == s[..2] + "." + s[3..5] + "." + s[6..];
  }
}
