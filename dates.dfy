/**
 * Calendar validity of a `YYYY-MM-DD` string, as `datetime.strptime(s, "%Y-%m-%d")`
 * decides it for ASCII zero-padded input: a four-digit year from 1 to 9999, a month
 * from 1 to 12 and a day within the month, with February 29 only in
 * Gregorian leap years.
 */
module Dates {
  import opened Wrappers
  import opened Numerals

  datatype Date = Date(year: int, month: int, day: int)

  /** The Gregorian rule: every fourth year, except centuries not divisible by 400. */
  predicate IsLeapYear(y: int)
  {
    y % 4 == 0 && (y % 100 != 0 || y % 400 == 0)
  }

  function DaysInMonth(y: int, m: int): (n: int)
    requires 1 <= m <= 12
    ensures 28 <= n <= 31
  {
    if m == 2 then (if IsLeapYear(y) then 29 else 28)
    else if m == 4 || m == 6 || m == 9 || m == 11 then 30
    else 31
  }

  predicate IsCalendarDate(d: Date)
  {
    1 <= d.year <= 9999 && 1 <= d.month <= 12 && 1 <= d.day <= DaysInMonth(d.year, d.month)
  }

  /** Reads `YYYY-MM-DD`; fails on any other shape and on a date the calendar does not have. */
  function ParseDate(s: string): (r: Option<Date>)
    ensures r.Some? ==> IsCalendarDate(r.value)
  {
    if |s| == 10 && s[4] == '-' && s[7] == '-'
       && AllDigits(s[..4]) && AllDigits(s[5..7]) && AllDigits(s[8..])
    then
      var d := Date(DigitsValue(s[..4]), DigitsValue(s[5..7]), DigitsValue(s[8..]));
      if IsCalendarDate(d) then Some(d) else None
    else None
  }

  /** The model of `is_valid_date`. */
  predicate IsValidDate(s: string)
  {
    ParseDate(s).Some?
  }

  /** Writes a calendar date as `YYYY-MM-DD`. */
  function FormatDate(d: Date): (s: string)
    requires IsCalendarDate(d)
    ensures |s| == 10
  {
    Fixed(d.year, 4) + "-" + Fixed(d.month, 2) + "-" + Fixed(d.day, 2)
  }

  /** How ParseDate reads a string already split into its three numerals. */
  lemma ParseDateParts(y: string, m: string, dd: string)
    requires |y| == 4 && |m| == 2 && |dd| == 2
    requires AllDigits(y) && AllDigits(m) && AllDigits(dd)
    ensures var d := Date(DigitsValue(y), DigitsValue(m), DigitsValue(dd));
            ParseDate(y + "-" + m + "-" + dd) == if IsCalendarDate(d) then Some(d) else None
  {
    var s := y + "-" + m + "-" + dd;
    assert s[4] == '-' && s[7] == '-';
    assert s[..4] == y && s[5..7] == m && s[8..] == dd;
  }

  lemma ParseFormatDate(d: Date)
    requires IsCalendarDate(d)
    ensures ParseDate(FormatDate(d)) == Some(d)
  {
    FixedValue(d.year, 4);
    FixedValue(d.month, 2);
    FixedValue(d.day, 2);
    ParseDateParts(Fixed(d.year, 4), Fixed(d.month, 2), Fixed(d.day, 2));
  }

  lemma FormatParseDate(s: string)
    requires ParseDate(s).Some?
    ensures FormatDate(ParseDate(s).value) == s
  {
    FixedOfValue(s[..4]);
    FixedOfValue(s[5..7]);
    FixedOfValue(s[8..]);
    assert s == s[..4] + "-" + s[5..7] + "-" + s[8..];
  }

  /** A string is a valid date exactly when it is the `YYYY-MM-DD` form of a calendar date. */
  lemma ValidDateMeaning(s: string)
    ensures IsValidDate(s) <==> exists d :: IsCalendarDate(d) && FormatDate(d) == s
  {
    if IsValidDate(s) {
      FormatParseDate(s);
      assert IsCalendarDate(ParseDate(s).value);
    }
    if d :| IsCalendarDate(d) && FormatDate(d) == s {
      ParseFormatDate(d);
    }
  }

  /** February 29 of a four-digit year is accepted exactly in leap years. */
  lemma LeapDay(y: int)
    requires 1 <= y <= 9999
    ensures IsValidDate(Fixed(y, 4) + "-02-29") <==> IsLeapYear(y)
  {
    FixedValue(y, 4);
    assert DigitsValue("02") == 2 && DigitsValue("29") == 29;
    ParseDateParts(Fixed(y, 4), "02", "29");
    assert Fixed(y, 4) + "-02-29" == Fixed(y, 4) + "-" + "02" + "-" + "29";
  }

  /** How ParseDate reads the zero-padded numerals of three numbers. */
  lemma ParseFixedParts(y: nat, m: nat, d: nat)
    requires y < 10000 && m < 100 && d < 100
    ensures ParseDate(Fixed(y, 4) + "-" + Fixed(m, 2) + "-" + Fixed(d, 2))
            == if IsCalendarDate(Date(y, m, d)) then Some(Date(y, m, d)) else None
  {
    assert Pow10(2) == 100 && Pow10(4) == 10000;
    FixedValue(y, 4);
    FixedValue(m, 2);
    FixedValue(d, 2);
    ParseDateParts(Fixed(y, 4), Fixed(m, 2), Fixed(d, 2));
  }

  /** A string spelled digit by digit as `YYYY-MM-DD` is valid exactly when its date is. */
  lemma DateNumeral(s: string, y: nat, m: nat, d: nat)
    requires y < 10000 && m < 100 && d < 100 && |s| == 10
    requires s[0] == DigitChar(y / 1000) && s[1] == DigitChar(y / 100 % 10)
    requires s[2] == DigitChar(y / 10 % 10) && s[3] == DigitChar(y % 10)
    requires s[4] == '-' && s[5] == DigitChar(m / 10) && s[6] == DigitChar(m % 10)
    requires s[7] == '-' && s[8] == DigitChar(d / 10) && s[9] == DigitChar(d % 10)
    ensures IsValidDate(s) <==> IsCalendarDate(Date(y, m, d))
  {
    Numeral4(y, s[..4]);
    Numeral2(m, s[5..7]);
    Numeral2(d, s[8..]);
    ParseFixedParts(y, m, d);
    assert s == s[..4] + "-" + s[5..7] + "-" + s[8..];
  }

  lemma AcceptsLeapDays()
    ensures IsValidDate("2024-02-29")
    ensures IsValidDate("2000-02-29")
  {
    DateNumeral("2024-02-29", 2024, 2, 29);
    DateNumeral("2000-02-29", 2000, 2, 29);
  }

  lemma RejectsNonLeapDays()
    ensures !IsValidDate("2023-02-29")
    ensures !IsValidDate("1900-02-29")
  {
    DateNumeral("2023-02-29", 2023, 2, 29);
    DateNumeral("1900-02-29", 1900, 2, 29);
  }

  lemma RejectsOutOfRange()
    ensures !IsValidDate("2024-02-30")
    ensures !IsValidDate("2024-13-01")
    ensures !IsValidDate("0000-01-01")
  {
    DateNumeral("2024-02-30", 2024, 2, 30);
    DateNumeral("2024-13-01", 2024, 13, 1);
    DateNumeral("0000-01-01", 0, 1, 1);
  }

  lemma RejectsMalformed()
    ensures !IsValidDate("not-a-date")
    ensures !IsValidDate("2024/01/05")
    ensures !IsValidDate("24-01-05")
  {
  }

  /** Numeral4(n, s): `s` is the four-digit numeral of `n` (for the worked examples). */
  lemma Numeral4(n: nat, s: string)
    requires n < 10000 && |s| == 4
    requires s[0] == DigitChar(n / 1000) && s[1] == DigitChar(n / 100 % 10)
    requires s[2] == DigitChar(n / 10 % 10) && s[3] == DigitChar(n % 10)
    ensures Fixed(n, 4) == s
  {
    assert n / 10 / 10 == n / 100 && n / 100 / 10 == n / 1000;
    assert Fixed(n / 1000, 1) == [s[0]];
    assert Fixed(n / 100, 2) == s[..2];
    assert Fixed(n / 10, 3) == s[..3];
  }

  /** Numeral2(n, s): `s` is the two-digit numeral of `n`. */
  lemma Numeral2(n: nat, s: string)
    requires n < 100 && |s| == 2
    requires s[0] == DigitChar(n / 10) && s[1] == DigitChar(n % 10)
    ensures Fixed(n, 2) == s
  {
  }
}
