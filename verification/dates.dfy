/** Calendar values (the .NET `DateTime` as the student records use it),
    the calendar-date projection `.Date`, and the two fixed textual formats
    the service renders dates in: `dd/MM/yyyy` for views and `yyyy-MM-dd`
    for spreadsheet cells. Each format has a parser that inverts it, so the
    rendering can be shown to lose exactly the time of day and nothing else. */
module Dates {
  import opened Wrappers

  /** 100-nanosecond ticks in one day, the resolution of a .NET `DateTime`. */
  const TicksPerDay: int := 864_000_000_000

  predicate IsLeapYear(year: int) {
    year % 4 == 0 && (year % 100 != 0 || year % 400 == 0)
  }

  function DaysInMonth(year: int, month: int): int
    requires 1 <= month <= 12
  {
    if month == 2 then (if IsLeapYear(year) then 29 else 28)
    else if month == 4 || month == 6 || month == 9 || month == 11 then 30
    else 31
  }

  /** A date with a time of day, counted in ticks since midnight. */
  datatype Stamp = Stamp(year: int, month: int, day: int, tick: int)

  /** The range a .NET `DateTime` can hold: years 1 to 9999, real days. */
  predicate IsCalendarStamp(s: Stamp) {
    && 1 <= s.year <= 9999
    && 1 <= s.month <= 12
    && 1 <= s.day <= DaysInMonth(s.year, s.month)
    && 0 <= s.tick < TicksPerDay
  }

  type DateTime = s: Stamp | IsCalendarStamp(s) witness Stamp(1, 1, 1, 0)

  /** `DateTime.MinValue`, also `default(DateTime)`: what a freshly
      constructed record holds in a date member nobody assigned. */
  const MinValue: DateTime := Stamp(1, 1, 1, 0)

  /** `d.Date`: the same calendar day at midnight. */
  function DateOf(d: DateTime): (r: DateTime)
    ensures r.tick == 0
    ensures r.year == d.year && r.month == d.month && r.day == d.day
  {
    d.(tick := 0)
  }

  /** Two instants fall on the same calendar day; time of day is ignored. */
  predicate SameCalendarDate(a: DateTime, b: DateTime) {
    DateOf(a) == DateOf(b)
  }

  // ---- digits ----

  predicate IsDigit(c: char) {
    '0' <= c <= '9'
  }

  predicate AllDigits(s: string) {
    forall i :: 0 <= i < |s| ==> IsDigit(s[i])
  }

  function DigitChar(n: int): (c: char)
    requires 0 <= n < 10
    ensures IsDigit(c)
  {
    ('0' as int + n) as char
  }

  function DigitValue(c: char): (n: int)
    requires IsDigit(c)
    ensures 0 <= n < 10
  {
    c as int - '0' as int
  }

  /** Two-digit zero-padded rendering (`dd`, `MM`). */
  function Pad2(n: int): (s: string)
    requires 0 <= n < 100
    ensures |s| == 2 && AllDigits(s)
  {
    [DigitChar(n / 10), DigitChar(n % 10)]
  }

  /** Four-digit zero-padded rendering (`yyyy`). */
  function Pad4(n: int): (s: string)
    requires 0 <= n < 10000
    ensures |s| == 4 && AllDigits(s)
  {
    [DigitChar(n / 1000), DigitChar(n / 100 % 10), DigitChar(n / 10 % 10), DigitChar(n % 10)]
  }

  function Read2(s: string): (n: int)
    requires |s| == 2 && AllDigits(s)
    ensures 0 <= n < 100
  {
    10 * DigitValue(s[0]) + DigitValue(s[1])
  }

  function Read4(s: string): (n: int)
    requires |s| == 4 && AllDigits(s)
    ensures 0 <= n < 10000
  {
    1000 * DigitValue(s[0]) + 100 * DigitValue(s[1]) + 10 * DigitValue(s[2]) + DigitValue(s[3])
  }

  lemma Read2Pad2(n: int)
    requires 0 <= n < 100
    ensures Read2(Pad2(n)) == n
  {
  }

  lemma Pad2Read2(s: string)
    requires |s| == 2 && AllDigits(s)
    ensures Pad2(Read2(s)) == s
  {
  }

  lemma Read4Pad4(n: int)
    requires 0 <= n < 10000
    ensures Read4(Pad4(n)) == n
  {
    var s := Pad4(n);
    assert DigitValue(s[0]) == n / 1000 && DigitValue(s[1]) == n / 100 % 10;
    assert DigitValue(s[2]) == n / 10 % 10 && DigitValue(s[3]) == n % 10;
    assert n == 10 * (n / 10) + n % 10;
    assert n / 10 == 10 * (n / 100) + n / 10 % 10;
    assert n / 100 == 10 * (n / 1000) + n / 100 % 10;
  }

  lemma Pad4Read4(s: string)
    requires |s| == 4 && AllDigits(s)
    ensures Pad4(Read4(s)) == s
  {
    var a, b, c, d := DigitValue(s[0]), DigitValue(s[1]), DigitValue(s[2]), DigitValue(s[3]);
    var n := Read4(s);
    assert n == 10 * (100 * a + 10 * b + c) + d;
    assert n / 10 == 100 * a + 10 * b + c && n % 10 == d;
    assert n / 100 == 10 * a + b && n / 10 % 10 == c;
    assert n / 1000 == a && n / 100 % 10 == b;
  }

  // ---- the two formats ----

  /** `d.ToString("dd/MM/yyyy")`, with `/` taken as a literal slash. */
  function FormatDayMonthYear(d: DateTime): string {
    Pad2(d.day) + "/" + Pad2(d.month) + "/" + Pad4(d.year)
  }

  /** `d.ToString("yyyy-MM-dd")`. */
  function FormatIso(d: DateTime): string {
    Pad4(d.year) + "-" + Pad2(d.month) + "-" + Pad2(d.day)
  }

  /** Builds the midnight instant of a day, when that day exists. */
  function MakeDate(year: int, month: int, day: int): (r: Option<DateTime>)
    ensures r.Some? ==> r.value == Stamp(year, month, day, 0)
    ensures r.None? <==> !IsCalendarStamp(Stamp(year, month, day, 0))
  {
    var s := Stamp(year, month, day, 0);
    if IsCalendarStamp(s) then Some(s) else None
  }

  /** Reads a `dd/MM/yyyy` string back; `None` for anything that is not
      such a rendering of a real day. */
  function ParseDayMonthYear(s: string): (r: Option<DateTime>)
    ensures r.Some? ==> r.value.tick == 0 && FormatDayMonthYear(r.value) == s
  {
    if |s| == 10 && s[2] == '/' && s[5] == '/'
       && AllDigits(s[0..2]) && AllDigits(s[3..5]) && AllDigits(s[6..10])
    then
      var r := MakeDate(Read4(s[6..10]), Read2(s[3..5]), Read2(s[0..2]));
      if r.Some? then
        Pad2Read2(s[0..2]);
        Pad2Read2(s[3..5]);
        Pad4Read4(s[6..10]);
        assert s == s[0..2] + "/" + s[3..5] + "/" + s[6..10];
        r
      else None
    else None
  }

  /** Reads a `yyyy-MM-dd` string back. */
  function ParseIso(s: string): (r: Option<DateTime>)
    ensures r.Some? ==> r.value.tick == 0 && FormatIso(r.value) == s
  {
    if |s| == 10 && s[4] == '-' && s[7] == '-'
       && AllDigits(s[0..4]) && AllDigits(s[5..7]) && AllDigits(s[8..10])
    then
      var r := MakeDate(Read4(s[0..4]), Read2(s[5..7]), Read2(s[8..10]));
      if r.Some? then
        Pad4Read4(s[0..4]);
        Pad2Read2(s[5..7]);
        Pad2Read2(s[8..10]);
        assert s == s[0..4] + "-" + s[5..7] + "-" + s[8..10];
        r
      else None
    else None
  }

  /** Parsing a `dd/MM/yyyy` rendering gives back the calendar date. */
  lemma DayMonthYearRoundTrip(d: DateTime)
    ensures ParseDayMonthYear(FormatDayMonthYear(d)) == Some(DateOf(d))
  {
    var s := FormatDayMonthYear(d);
    assert s[0..2] == Pad2(d.day);
    assert s[3..5] == Pad2(d.month);
    assert s[6..10] == Pad4(d.year);
    Read2Pad2(d.day);
    Read2Pad2(d.month);
    Read4Pad4(d.year);
  }

  /** Parsing a `yyyy-MM-dd` rendering gives back the calendar date. */
  lemma IsoRoundTrip(d: DateTime)
    ensures ParseIso(FormatIso(d)) == Some(DateOf(d))
  {
    var s := FormatIso(d);
    assert s[0..4] == Pad4(d.year);
    assert s[5..7] == Pad2(d.month);
    assert s[8..10] == Pad2(d.day);
    Read4Pad4(d.year);
    Read2Pad2(d.month);
    Read2Pad2(d.day);
  }

  /** The view format tells two instants apart exactly when they fall on
      different calendar days. */
  lemma DayMonthYearIdentifiesDate(a: DateTime, b: DateTime)
    ensures FormatDayMonthYear(a) == FormatDayMonthYear(b) <==> SameCalendarDate(a, b)
  {
    DayMonthYearRoundTrip(a);
    DayMonthYearRoundTrip(b);
  }

  /** The same for the spreadsheet format. */
  lemma IsoIdentifiesDate(a: DateTime, b: DateTime)
    ensures FormatIso(a) == FormatIso(b) <==> SameCalendarDate(a, b)
  {
    IsoRoundTrip(a);
    IsoRoundTrip(b);
  }
}
