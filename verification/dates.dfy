/** Calendar dates as `datetime.strptime(text, "%Y-%m-%d")` produces them:
    year, month and day only, in the proleptic Gregorian calendar that
    Python's `datetime` uses, years 1 to 9999. */
module Dates {
  import opened Wrappers
  import opened Numerals

  datatype Date = Date(year: int, month: int, day: int)

  predicate IsLeapYear(y: int) {
    (y % 4 == 0 && y % 100 != 0) || y % 400 == 0
  }

  /** The length of month `m` of year `y`: February has 29 days in leap
      years and 28 otherwise; the other months follow the knuckle rule
      (31 days for January to July at odd months, from August at even ones). */
  function DaysInMonth(y: int, m: int): (n: int)
    requires 1 <= m <= 12
    ensures 28 <= n <= 31
    ensures m == 2 ==> n == if IsLeapYear(y) then 29 else 28
    ensures m != 2 ==> n == 30 + (m + m / 8) % 2
  {
    if m == 2 then (if IsLeapYear(y) then 29 else 28)
    else if m == 4 || m == 6 || m == 9 || m == 11 then 30
    else 31
  }

  /** A date that `datetime` can represent. */
  predicate ValidDate(d: Date) {
    && 1 <= d.year <= 9999
    && 1 <= d.month <= 12
    && 1 <= d.day <= DaysInMonth(d.year, d.month)
  }

  /** The `YYYY-MM-DD` shape: four, two and two ASCII digits joined by dashes. */
  predicate DateShaped(s: string) {
    && |s| == 10
    && s[4] == '-' && s[7] == '-'
    && AllDigits(s[..4]) && AllDigits(s[5..7]) && AllDigits(s[8..])
  }

  /** Parses a date field; rejects text of the wrong shape and dates that do
      not exist in the calendar (month 13, 30 February, year 0). */
  function ParseDate(s: string): (r: Option<Date>)
    ensures r.Some? ==> ValidDate(r.value) && DateShaped(s)
  {
    if !DateShaped(s) then None
    else
      var d := Date(DigitsValue(s[..4]), DigitsValue(s[5..7]), DigitsValue(s[8..]));
      if ValidDate(d) then Some(d) else None
  }

  /** Writes a date as `YYYY-MM-DD`, zero-padded. */
  function FormatDate(d: Date): (s: string)
    requires ValidDate(d)
    ensures DateShaped(s)
  {
    assert Pow10(2) == 100 && Pow10(4) == 10000;
    FormatNatWidth(d.year, 4);
    FormatNatWidth(d.month, 2);
    FormatNatWidth(d.day, 2);
    var s := PadTo(FormatNat(d.year), 4) + "-" + PadTo(FormatNat(d.month), 2) + "-" + PadTo(FormatNat(d.day), 2);
    assert s[..4] == PadTo(FormatNat(d.year), 4);
    assert s[5..7] == PadTo(FormatNat(d.month), 2);
    assert s[8..] == PadTo(FormatNat(d.day), 2);
    s
  }

  /** Every valid date survives being written out and parsed back. */
  lemma ParseFormatDate(d: Date)
    requires ValidDate(d)
    ensures ParseDate(FormatDate(d)) == Some(d)
  {
    FormatDateFields(d);
    PaddedValue(d.year, 4);
    PaddedValue(d.month, 2);
    PaddedValue(d.day, 2);
  }

  /** The three fields of a formatted date, at their fixed places. */
  lemma FormatDateFields(d: Date)
    requires ValidDate(d)
    ensures var s := FormatDate(d);
      && s[..4] == PadTo(FormatNat(d.year), 4)
      && s[5..7] == PadTo(FormatNat(d.month), 2)
      && s[8..] == PadTo(FormatNat(d.day), 2)
  {
  }

  /** A date-shaped string is its three digit fields joined by dashes. */
  lemma DateShapedParts(s: string)
    requires DateShaped(s)
    ensures s == s[..4] + "-" + s[5..7] + "-" + s[8..]
  {
  }

  /** A parsed date field is exactly the formatted form of the date it denotes. */
  lemma ParsedDateIsFormatted(s: string, d: Date)
    requires ParseDate(s) == Some(d)
    ensures FormatDate(d) == s
  {
    assert d == Date(DigitsValue(s[..4]), DigitsValue(s[5..7]), DigitsValue(s[8..]));
    PaddedDigitsValue(s[..4]);
    PaddedDigitsValue(s[5..7]);
    PaddedDigitsValue(s[8..]);
    var f := FormatDate(d);
    FormatDateFields(d);
    DateShapedParts(s);
    DateShapedParts(f);
  }

  /** The date grammar is canonical: a field parses to `d` exactly when it is
      the zero-padded spelling of the valid date `d`. */
  lemma DateCanonical(s: string, d: Date)
    ensures ParseDate(s) == Some(d) <==> ValidDate(d) && FormatDate(d) == s
  {
    if ParseDate(s) == Some(d) {
      ParsedDateIsFormatted(s, d);
    }
    if ValidDate(d) && FormatDate(d) == s {
      ParseFormatDate(d);
    }
  }
}
