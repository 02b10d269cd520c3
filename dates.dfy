/** Calendar dates and the `%Y-%m-%d` text form the trip filters parse. */
module Dates {
  import opened Common
  import opened Text

  /** A calendar date as a (year, month, day) triple. */
  datatype Date = Date(year: int, month: int, day: int)

  /** A timestamp: its calendar date and its time of day. Only the date takes part
      in filtering (the `__date` lookup). */
  datatype DateTime = DateTime(date: Date, hour: int, minute: int)

  predicate IsLeapYear(y: int)
  {
    y % 4 == 0 && (y % 100 != 0 || y % 400 == 0)
  }

  function DaysInMonth(y: int, m: int): int
    requires 1 <= m <= 12
  {
    if m == 2 then (if IsLeapYear(y) then 29 else 28)
    else if m == 4 || m == 6 || m == 9 || m == 11 then 30
    else 31
  }

  /** A date that a four-digit `%Y` can name and that exists in the calendar. */
  predicate IsValidDate(d: Date)
  {
    1 <= d.year <= 9999 && 1 <= d.month <= 12 && 1 <= d.day <= DaysInMonth(d.year, d.month)
  }

  /** The `YYYY-MM-DD` rendering of a date. */
  function FormatDate(d: Date): (s: string)
    requires IsValidDate(d)
    ensures |s| == 10
  {
    PadDecimal(d.year, 4) + "-" + PadDecimal(d.month, 2) + "-" + PadDecimal(d.day, 2)
  }

  /** Parsing a date parameter with the format `%Y-%m-%d`: four digits, a dash, two
      digits, a dash, two digits, naming an existing date; anything else is refused. */
  function ParseDate(s: string): (r: Option<Date>)
    ensures r.Some? ==> IsValidDate(r.value)
  {
    if |s| == 10 && s[4] == '-' && s[7] == '-'
       && AllDigits(s[..4]) && AllDigits(s[5..7]) && AllDigits(s[8..])
    then
      var d := Date(DecimalValue(s[..4]), DecimalValue(s[5..7]), DecimalValue(s[8..]));
      if IsValidDate(d) then Some(d) else None
    else None
  }

  /** Every valid date survives formatting and parsing. */
  lemma ParseFormatted(d: Date)
    requires IsValidDate(d)
    ensures ParseDate(FormatDate(d)) == Some(d)
  {
    var y, m, dd := PadDecimal(d.year, 4), PadDecimal(d.month, 2), PadDecimal(d.day, 2);
    var s := FormatDate(d);
    assert s[..4] == y && s[4] == '-' && s[5..7] == m && s[7] == '-' && s[8..] == dd;
    assert Pow10(4) == 10000 && Pow10(2) == 100;
    DecimalValueOfPad(d.year, 4);
    DecimalValueOfPad(d.month, 2);
    DecimalValueOfPad(d.day, 2);
  }

  /** The parser accepts only the canonical rendering of the date it returns. */
  lemma FormatParsed(s: string)
    requires ParseDate(s).Some?
    ensures FormatDate(ParseDate(s).value) == s
  {
    PadOfDecimalValue(s[..4]);
    PadOfDecimalValue(s[5..7]);
    PadOfDecimalValue(s[8..]);
    assert s == s[..4] + "-" + s[5..7] + "-" + s[8..];
  }
}
