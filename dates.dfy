/**
 The date key of a page-view row: the current UTC calendar date rendered as
 the year zero-padded to four places, then month and day zero-padded to two,
 separated by '-', and why comparing these
 strings, as `ORDER BY date` does, compares the dates.
 */
module Dates {
  import opened Wrappers
  import opened Text

  /** A calendar date as the `time` crate reports it: a signed year, month 1-12, day 1-31. */
  datatype Date = Date(year: int, month: nat, day: nat)

  /** Dates whose year renders in four digits without a sign. */
  predicate FourDigitYear(d: Date) {
    0 <= d.year <= 9999 && 1 <= d.month <= 12 && 1 <= d.day <= 31
  }

  /** Chronological order: `d1` is an earlier day than `d2`. */
  predicate Before(d1: Date, d2: Date) {
    d1.year < d2.year
    || (d1.year == d2.year && d1.month < d2.month)
    || (d1.year == d2.year && d1.month == d2.month && d1.day < d2.day)
  }

  /** Rust's zero-padded width-4 format of a signed year: zero padding goes after the sign and the width counts the sign. */
  function FormatYear(year: int): string {
    if year >= 0 then ZeroPad(year, 4) else "-" + ZeroPad(-year, 3)
  }

  /** The `date` column value that a page view recorded on day `d` is stored under. */
  function FormatDate(d: Date): string {
    FormatYear(d.year) + "-" + ZeroPad(d.month, 2) + "-" + ZeroPad(d.day, 2)
  }

  /** Reads a `YYYY-MM-DD` string back; the partner of FormatDate. */
  function ParseDate(s: string): Option<Date> {
    if |s| == 10 && s[4] == '-' && s[7] == '-'
       && AllDigits(s[..4]) && AllDigits(s[5..7]) && AllDigits(s[8..])
    then Some(Date(ValueOf(s[..4]), ValueOf(s[5..7]), ValueOf(s[8..])))
    else None
  }

  /** A four-digit-year date renders as exactly ten characters: four digits, '-', two digits, '-', two digits. */
  lemma FormatDateShape(d: Date)
    requires FourDigitYear(d)
    ensures var s := FormatDate(d);
      |s| == 10 && s[4] == '-' && s[7] == '-'
      && s[..4] == ZeroPad(d.year, 4) && s[5..7] == ZeroPad(d.month, 2) && s[8..] == ZeroPad(d.day, 2)
  {
    ZeroPadFits(d.year, 4);
    ZeroPadFits(d.month, 2);
    ZeroPadFits(d.day, 2);
  }

  /** Parsing the rendered date gives the date back, so the rendering loses nothing. */
  lemma FormatParseRoundTrip(d: Date)
    requires FourDigitYear(d)
    ensures ParseDate(FormatDate(d)) == Some(d)
  {
    FormatDateShape(d);
    ZeroPadFits(d.year, 4);
    ZeroPadFits(d.month, 2);
    ZeroPadFits(d.day, 2);
  }

  /** Two four-digit-year dates render to the same string exactly when they are the same date. */
  lemma FormatDateInjective(d1: Date, d2: Date)
    requires FourDigitYear(d1) && FourDigitYear(d2)
    ensures FormatDate(d1) == FormatDate(d2) <==> d1 == d2
  {
    FormatParseRoundTrip(d1);
    FormatParseRoundTrip(d2);
  }

  /**
   Two texts of the form `year-month-day`, with fields of equal widths, compare
   field by field: year first, then month, then day.
   */
  lemma {:induction false} FieldsOrder(y1: string, m1: string, x1: string, y2: string, m2: string, x2: string)
    requires |y1| == |y2| && |m1| == |m2|
    ensures LexLess(y1 + "-" + m1 + "-" + x1, y2 + "-" + m2 + "-" + x2) <==>
      LexLess(y1, y2) || (y1 == y2 && (LexLess(m1, m2) || (m1 == m2 && LexLess(x1, x2))))
  {
    var r1, r2 := "-" + (m1 + ("-" + x1)), "-" + (m2 + ("-" + x2));
    assert y1 + "-" + m1 + "-" + x1 == y1 + r1;
    assert y2 + "-" + m2 + "-" + x2 == y2 + r2;
    LexConcat(y1, y2, r1, r2);
    LexIrreflexive("-");
    LexConcat("-", "-", m1 + ("-" + x1), m2 + ("-" + x2));
    LexConcat(m1, m2, "-" + x1, "-" + x2);
    LexConcat("-", "-", x1, x2);
  }

  /** String order on rendered dates is chronological order (for four-digit years). */
  lemma FormatDateOrder(d1: Date, d2: Date)
    requires FourDigitYear(d1) && FourDigitYear(d2)
    ensures LexLess(FormatDate(d1), FormatDate(d2)) <==> Before(d1, d2)
  {
    var y1, m1, x1 := ZeroPad(d1.year, 4), ZeroPad(d1.month, 2), ZeroPad(d1.day, 2);
    var y2, m2, x2 := ZeroPad(d2.year, 4), ZeroPad(d2.month, 2), ZeroPad(d2.day, 2);
    ZeroPadFits(d1.year, 4); ZeroPadFits(d1.month, 2); ZeroPadFits(d1.day, 2);
    ZeroPadFits(d2.year, 4); ZeroPadFits(d2.month, 2); ZeroPadFits(d2.day, 2);
    DigitsOrder(y1, y2);
    DigitsOrder(m1, m2);
    DigitsOrder(x1, x2);
    FieldsOrder(y1, m1, x1, y2, m2, x2);
  }
}
