/** Calendar dates as DateTime holds them at midnight, with the "yyyy-MM-dd" text form. */
module Dates {
  import opened Wrappers
  import opened Numbers

  datatype CalendarDate = CalendarDate(year: int, month: int, day: int)

  /** The proleptic Gregorian leap-year rule DateTime uses. */
  predicate IsLeapYear(year: int) {
    year % 4 == 0 && (year % 100 != 0 || year % 400 == 0)
  }

  function DaysInMonth(year: int, month: int): int
    requires 1 <= month <= 12
  {
    if month == 2 then (if IsLeapYear(year) then 29 else 28)
    else if month == 4 || month == 6 || month == 9 || month == 11 then 30
    else 31
  }

  /** DateTime covers the years 1 to 9999. */
  predicate ValidDate(d: CalendarDate) {
    && 1 <= d.year <= 9999
    && 1 <= d.month <= 12
    && 1 <= d.day <= DaysInMonth(d.year, d.month)
  }

  /** A DateTime whose time of day is midnight, the only kind the core produces. */
  type Date = d: CalendarDate | ValidDate(d) witness CalendarDate(1, 1, 1)

  /** a < b on DateTime. */
  predicate Before(a: Date, b: Date) {
    || a.year < b.year
    || (a.year == b.year && a.month < b.month)
    || (a.year == b.year && a.month == b.month && a.day < b.day)
  }

  /** a <= b on DateTime. */
  predicate OnOrBefore(a: Date, b: Date) {
    a == b || Before(a, b)
  }

  /** The last `width` decimal digits of `n`, padded with zeros (custom format "0000"). */
  function PadDigits(n: nat, width: nat): (s: string)
    ensures |s| == width && AllDigits(s)
    decreases width
  {
    if width == 0 then "" else PadDigits(n / 10, width - 1) + [DigitChar(n % 10)]
  }

  function Pow10(k: nat): nat {
    if k == 0 then 1 else 10 * Pow10(k - 1)
  }

  lemma Pow10Widths()
    ensures Pow10(2) == 100 && Pow10(4) == 10000
  {
    assert Pow10(1) == 10;
    assert Pow10(3) == 1000;
  }

  /** Padding loses nothing of a value that fits in the width. */
  lemma {:induction false} PadDigitsValue(n: nat, width: nat)
    requires n < Pow10(width)
    ensures DigitsValue(PadDigits(n, width)) == n
    decreases width
  {
    if width > 0 {
      assert n / 10 < Pow10(width - 1);
      PadDigitsValue(n / 10, width - 1);
      var s := PadDigits(n, width);
      assert s[..|s| - 1] == PadDigits(n / 10, width - 1);
    }
  }

  /** Reading digits and padding them back to the same width gives the same text. */
  lemma {:induction false} DigitsValuePad(s: string)
    requires AllDigits(s)
    ensures PadDigits(DigitsValue(s), |s|) == s
    decreases |s|
  {
    if s != [] {
      var p := s[..|s| - 1];
      DigitsValuePad(p);
      var v := DigitsValue(s);
      var last := DigitValue(s[|s| - 1]);
      assert v / 10 == DigitsValue(p) && v % 10 == last;
      assert s == p + [s[|s| - 1]];
    }
  }

  /** DateTime.ToString("yyyy-MM-dd"). */
  function FormatDate(d: Date): string {
    PadDigits(d.year, 4) + "-" + PadDigits(d.month, 2) + "-" + PadDigits(d.day, 2)
  }

  /** DateTime.Parse / DateTime.TryParse restricted to the ISO form "yyyy-MM-dd". */
  function ParseDate(s: string): Option<Date> {
    if |s| == 10 && s[4] == '-' && s[7] == '-'
       && AllDigits(s[..4]) && AllDigits(s[5..7]) && AllDigits(s[8..])
    then
      var d := CalendarDate(DigitsValue(s[..4]), DigitsValue(s[5..7]), DigitsValue(s[8..]));
      if ValidDate(d) then Some(d) else None
    else None
  }

  /** ParseDate reads the three digit groups of a "yyyy-MM-dd" text. */
  lemma ParseDateParts(y: string, m: string, dd: string)
    requires |y| == 4 && |m| == 2 && |dd| == 2 && AllDigits(y) && AllDigits(m) && AllDigits(dd)
    ensures var d := CalendarDate(DigitsValue(y), DigitsValue(m), DigitsValue(dd));
      ParseDate(y + "-" + m + "-" + dd) == if ValidDate(d) then Some(d) else None
  {
    var s := y + "-" + m + "-" + dd;
    assert s[..4] == y;
    assert s[5..7] == m;
    assert s[8..] == dd;
  }

  /** Every date written as "yyyy-MM-dd" parses back to itself. */
  lemma FormatParseDate(d: Date)
    ensures ParseDate(FormatDate(d)) == Some(d)
  {
    Pow10Widths();
    PadDigitsValue(d.year, 4);
    PadDigitsValue(d.month, 2);
    PadDigitsValue(d.day, 2);
    ParseDateParts(PadDigits(d.year, 4), PadDigits(d.month, 2), PadDigits(d.day, 2));
  }

  /** A text the parser accepts is exactly the format of the date it yields. */
  lemma ParseFormatDate(s: string)
    requires ParseDate(s).Some?
    ensures FormatDate(ParseDate(s).value) == s
  {
    DigitsValuePad(s[..4]);
    DigitsValuePad(s[5..7]);
    DigitsValuePad(s[8..]);
    assert s == s[..4] + "-" + s[5..7] + "-" + s[8..];
  }
}
