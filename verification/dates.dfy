/**
 * `formatGS1Date` of scanner.js: YYMMDD validation, the code's own
 * two-digit-year window, the calendar check and the DD/MM/YYYY rendering
 * with the expiry marker. The clock is a parameter.
 */
module Gs1Dates {
  import opened Optional
  import opened JsString

  datatype Date = Date(year: int, month: int, day: int)

  /** What the code reads from `new Date()`: the local full year and today's UTC date. */
  datatype Clock = Clock(localYear: nat, utcToday: Date)

  /** What `formatGS1Date` returns: display text, expiry flag (null when unknown), the date. */
  datatype DateInfo = DateInfo(formatted: string, isExpired: Option<bool>, date: Option<Date>)

  const InvalidSuffix: string := " (Fecha inválida)"
  const ExpiredSuffix: string := " (¡Vencido!)"

  predicate IsLeapYear(y: int) {
    y % 4 == 0 && (y % 100 != 0 || y % 400 == 0)
  }

  function DaysInMonth(y: int, m: int): (r: int)
    requires 1 <= m <= 12
    ensures 28 <= r <= 31
  {
    if m == 2 then (if IsLeapYear(y) then 29 else 28)
    else if m == 4 || m == 6 || m == 9 || m == 11 then 30
    else 31
  }

  /** A day that exists in the proleptic Gregorian calendar. */
  predicate IsCalendarDate(d: Date) {
    1 <= d.month <= 12 && 1 <= d.day <= DaysInMonth(d.year, d.month)
  }

  /**
   * Where `Date.UTC(y, m - 1, d)` lands for a month 1-12 and a day 1-31: a
   * day past the end of the month carries into the next month (and year),
   * and since at most three days overflow, one carry is all there is.
   */
  function UtcNormalize(y: int, m: int, d: int): (r: Date)
    requires 1 <= m <= 12 && 1 <= d <= 31
    ensures IsCalendarDate(r)
    ensures r == Date(y, m, d) <==> d <= DaysInMonth(y, m)
  {
    if d <= DaysInMonth(y, m) then Date(y, m, d)
    else if m == 12 then Date(y + 1, 1, d - DaysInMonth(y, m))
    else Date(y, m + 1, d - DaysInMonth(y, m))
  }

  /** Chronological order of two dates at UTC midnight. */
  predicate Before(a: Date, b: Date) {
    a.year < b.year
    || (a.year == b.year && a.month < b.month)
    || (a.year == b.year && a.month == b.month && a.day < b.day)
  }

  /** The code's century rule: up to ten years past the current two-digit year is 20YY. */
  function WindowYear(yy: nat, currentYear2: nat): (r: int)
    requires yy < 100
    ensures 1900 <= r < 2100 && r % 100 == yy
    ensures r >= 2000 <==> yy <= currentYear2 + 10
  {
    if yy <= currentYear2 + 10 then 2000 + yy else 1900 + yy
  }

  /** The date a six-digit YYMMDD string names under the window of `clock`. */
  function YymmddDate(s: string, clock: Clock): Date
    requires IsSixDigits(s)
  {
    TwoDigitsBelow100(s[0..2]);
    Date(WindowYear(DigitsValue(s[0..2]), clock.localYear % 100), DigitsValue(s[2..4]), DigitsValue(s[4..6]))
  }

  function FormatGS1Date(s: string, clock: Clock): (r: DateInfo)
    ensures !IsSixDigits(s) ==> r == DateInfo(s, None, None)
    ensures IsSixDigits(s) ==>
      (r.isExpired.Some? <==> IsCalendarDate(YymmddDate(s, clock)))
    ensures r.isExpired.Some? <==> r.date.Some?
    ensures IsSixDigits(s) && r.isExpired.None? ==> r.formatted == s + InvalidSuffix
    ensures r.isExpired.Some? ==>
      r.date == Some(YymmddDate(s, clock)) && r.isExpired == Some(Before(r.date.value, clock.utcToday))
  {
    if !IsSixDigits(s) then DateInfo(s, None, None)
    else
      TwoDigitsBelow100(s[0..2]);
      var year := DigitsValue(s[0..2]);
      var month := DigitsValue(s[2..4]);
      var day := DigitsValue(s[4..6]);
      var fullYear := WindowYear(year, clock.localYear % 100);
      if month < 1 || month > 12 || day < 1 || day > 31 then DateInfo(s + InvalidSuffix, None, None)
      else
        var dateObj := UtcNormalize(fullYear, month, day);
        if dateObj != Date(fullYear, month, day) then DateInfo(s + InvalidSuffix, None, None)
        else
          var isExpired := Before(dateObj, clock.utcToday);
          DateInfo(Display(dateObj) + (if isExpired then ExpiredSuffix else ""), Some(isExpired), Some(dateObj))
  }

  /** `DD/MM/YYYY` with zero-padded day and month. */
  function Display(d: Date): string
    requires d.day >= 0 && d.month >= 0 && d.year >= 0
  {
    Pad2(d.day as nat) + "/" + Pad2(d.month as nat) + "/" + NatToString(d.year as nat)
  }

  /** A displayed date of a four-digit year is ten characters and reads back as itself. */
  lemma DisplayRoundTrip(d: Date)
    requires 0 <= d.day < 100 && 0 <= d.month < 100 && 1000 <= d.year < 10000
    ensures |Display(d)| == 10 && ParseDisplayDate(Display(d)) == Some(d)
  {
    var day, month, year := d.day as nat, d.month as nat, d.year as nat;
    Pad2RoundTrip(day);
    Pad2RoundTrip(month);
    NatToStringLength(year);
    DigitsValueOfNatToString(year);
    ParseDisplayParts(Pad2(day), Pad2(month), NatToString(year));
  }

  lemma ParseDisplayParts(dd: string, mm: string, yyyy: string)
    requires |dd| == 2 && |mm| == 2 && |yyyy| == 4
    requires AllDigits(dd) && AllDigits(mm) && AllDigits(yyyy)
    ensures |dd + "/" + mm + "/" + yyyy| == 10
    ensures ParseDisplayDate(dd + "/" + mm + "/" + yyyy)
      == Some(Date(DigitsValue(yyyy), DigitsValue(mm), DigitsValue(dd)))
  {
    DisplayShape(dd, mm, yyyy);
  }

  lemma DisplayShape(dd: string, mm: string, yyyy: string)
    requires |dd| == 2 && |mm| == 2 && |yyyy| == 4
    ensures var t := dd + "/" + mm + "/" + yyyy;
      && |t| == 10 && t[2] == '/' && t[5] == '/'
      && t[0..2] == dd && t[3..5] == mm && t[6..10] == yyyy
  {
    var t := dd + "/" + mm + "/" + yyyy;
    assert t[0..2] == dd;
    assert t[3..5] == mm;
    assert t[6..10] == yyyy;
  }

  /** Reads a `DD/MM/YYYY` display string back into a date. */
  function ParseDisplayDate(t: string): Option<Date> {
    if |t| == 10 && t[2] == '/' && t[5] == '/'
       && AllDigits(t[0..2]) && AllDigits(t[3..5]) && AllDigits(t[6..10])
    then Some(Date(DigitsValue(t[6..10]), DigitsValue(t[3..5]), DigitsValue(t[0..2])))
    else None
  }

  /**
   * A date accepted by `FormatGS1Date` is displayed so that its first ten
   * characters read back as that same date, whose day, month and two-digit
   * year are the digits of the input, followed by the expiry marker exactly
   * when it lies before today.
   */
  lemma FormatRoundTrip(s: string, clock: Clock)
    requires FormatGS1Date(s, clock).isExpired.Some?
    ensures var r := FormatGS1Date(s, clock);
      && |r.formatted| >= 10
      && ParseDisplayDate(r.formatted[..10]) == r.date
      && r.date.value.day == DigitsValue(s[4..6])
      && r.date.value.month == DigitsValue(s[2..4])
      && r.date.value.year % 100 == DigitsValue(s[0..2])
      && r.formatted[10..] == (if r.isExpired.value then ExpiredSuffix else "")
  {
    var r := FormatGS1Date(s, clock);
    var d := r.date.value;
    DisplayRoundTrip(d);
    assert r.formatted == Display(d) + (if r.isExpired.value then ExpiredSuffix else "");
    assert r.formatted[..10] == Display(d);
  }

  /**
   * Impossible calendar days are rejected whatever the clock: 30 February,
   * 31 April and the like, and 29 February outside leap years.
   */
  lemma ImpossibleDayRejected(s: string, clock: Clock)
    requires IsSixDigits(s)
    requires 1 <= DigitsValue(s[2..4]) <= 12
    requires DigitsValue(s[4..6]) > DaysInMonth(YymmddDate(s, clock).year, DigitsValue(s[2..4]))
    ensures FormatGS1Date(s, clock) == DateInfo(s + InvalidSuffix, None, None)
  {
  }
}
