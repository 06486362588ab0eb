/**
 * Local calendar fields of a JavaScript Date and the date-fns operations the
 * formatter uses on them: start and end of year, quarter and month, the quarter
 * number, comparison at minute precision, and the calendar day after a given
 * day (for "tomorrow"). Time zones and daylight-saving shifts are not modelled:
 * the fields are already local.
 */
module Calendar {

  /** Proleptic Gregorian leap years. */
  predicate IsLeapYear(year: int) {
    year % 4 == 0 && (year % 100 != 0 || year % 400 == 0)
  }

  function DaysInMonth(year: int, month: int): (n: int)
    requires 1 <= month <= 12
    ensures 28 <= n <= 31
    ensures month == 2 ==> (n == 29 <==> IsLeapYear(year))
  {
    if month == 2 then (if IsLeapYear(year) then 29 else 28)
    else if month == 4 || month == 6 || month == 9 || month == 11 then 30
    else 31
  }

  /** A calendar day, without time of day. */
  datatype CalendarDate = CalendarDate(year: int, month: int, day: int) {
    predicate Valid() {
      1 <= month <= 12 && 1 <= day <= DaysInMonth(year, month)
    }
  }

  /** Strict chronological order of calendar days. */
  predicate DateBefore(a: CalendarDate, b: CalendarDate) {
    a.year < b.year
    || (a.year == b.year && (a.month < b.month || (a.month == b.month && a.day < b.day)))
  }

  /** The local fields of a Date, down to the millisecond. */
  datatype DateTime = DateTime(year: int, month: int, day: int,
                               hour: int, minute: int, second: int, ms: int) {
    predicate Valid() {
      Date().Valid()
      && 0 <= hour < 24 && 0 <= minute < 60 && 0 <= second < 60 && 0 <= ms < 1000
    }

    function Date(): CalendarDate {
      CalendarDate(year, month, day)
    }
  }

  /** Chronological order of date-times, earlier or equal. */
  predicate NotAfter(a: DateTime, b: DateTime) {
    DateBefore(a.Date(), b.Date())
    || (a.Date() == b.Date()
        && (a.hour < b.hour
            || (a.hour == b.hour
                && (a.minute < b.minute
                    || (a.minute == b.minute
                        && (a.second < b.second || (a.second == b.second && a.ms <= b.ms)))))))
  }

  /**
   * date-fns isSameMinute: equal once seconds and milliseconds are dropped.
   * Two moments of one minute are on one day, and they are the same moment
   * as soon as their seconds and milliseconds agree.
   */
  predicate SameMinute(a: DateTime, b: DateTime)
    ensures SameMinute(a, b) ==> SameDay(a, b)
    ensures SameMinute(a, b) && a.second == b.second && a.ms == b.ms ==> a == b
  {
    a.Date() == b.Date() && a.hour == b.hour && a.minute == b.minute
  }

  /** date-fns isSameYear: within one year, days are ordered by month and then by day. */
  predicate SameYear(a: DateTime, b: DateTime)
    ensures SameYear(a, b) ==>
              (DateBefore(a.Date(), b.Date()) <==> a.month < b.month || (a.month == b.month && a.day < b.day))
  {
    a.year == b.year
  }

  /** date-fns isSameMonth: the same month of the same year. */
  predicate SameMonth(a: DateTime, b: DateTime)
    ensures SameMonth(a, b) ==> SameYear(a, b)
    ensures SameMonth(a, b) ==> (DateBefore(a.Date(), b.Date()) <==> a.day < b.day)
  {
    a.year == b.year && a.month == b.month
  }

  /** date-fns isSameDay: the same calendar day, that is neither day comes before the other. */
  predicate SameDay(a: DateTime, b: DateTime)
    ensures SameDay(a, b) ==> SameMonth(a, b)
    ensures SameDay(a, b) <==> !DateBefore(a.Date(), b.Date()) && !DateBefore(b.Date(), a.Date())
  {
    a.Date() == b.Date()
  }

  /** date-fns getQuarter: 1 for January to March, ..., 4 for October to December. */
  function Quarter(d: DateTime): (q: int)
    requires d.Valid()
    ensures 1 <= q <= 4
    ensures 3 * q - 2 <= d.month <= 3 * q
  {
    (d.month - 1) / 3 + 1
  }

  function StartOfYear(d: DateTime): (r: DateTime)
    requires d.Valid()
    ensures r.Valid() && NotAfter(r, d) && SameYear(r, d)
    ensures forall e: DateTime :: e.Valid() && SameYear(e, d) ==> NotAfter(r, e)
  {
    DateTime(d.year, 1, 1, 0, 0, 0, 0)
  }

  function EndOfYear(d: DateTime): (r: DateTime)
    requires d.Valid()
    ensures r.Valid() && NotAfter(d, r) && SameYear(r, d)
    ensures forall e: DateTime :: e.Valid() && SameYear(e, d) ==> NotAfter(e, r)
  {
    DateTime(d.year, 12, 31, 23, 59, 59, 999)
  }

  function StartOfQuarter(d: DateTime): (r: DateTime)
    requires d.Valid()
    ensures r.Valid() && NotAfter(r, d) && SameYear(r, d) && Quarter(r) == Quarter(d)
    ensures forall e: DateTime :: e.Valid() && SameYear(e, d) && Quarter(e) == Quarter(d) ==> NotAfter(r, e)
  {
    DateTime(d.year, 3 * Quarter(d) - 2, 1, 0, 0, 0, 0)
  }

  function EndOfQuarter(d: DateTime): (r: DateTime)
    requires d.Valid()
    ensures r.Valid() && NotAfter(d, r) && SameYear(r, d) && Quarter(r) == Quarter(d)
    ensures forall e: DateTime :: e.Valid() && SameYear(e, d) && Quarter(e) == Quarter(d) ==> NotAfter(e, r)
  {
    var last := 3 * Quarter(d);
    DateTime(d.year, last, DaysInMonth(d.year, last), 23, 59, 59, 999)
  }

  function StartOfMonth(d: DateTime): (r: DateTime)
    requires d.Valid()
    ensures r.Valid() && NotAfter(r, d) && SameMonth(r, d)
    ensures forall e: DateTime :: e.Valid() && SameMonth(e, d) ==> NotAfter(r, e)
  {
    DateTime(d.year, d.month, 1, 0, 0, 0, 0)
  }

  function EndOfMonth(d: DateTime): (r: DateTime)
    requires d.Valid()
    ensures r.Valid() && NotAfter(d, r) && SameMonth(r, d)
    ensures forall e: DateTime :: e.Valid() && SameMonth(e, d) ==> NotAfter(e, r)
  {
    DateTime(d.year, d.month, DaysInMonth(d.year, d.month), 23, 59, 59, 999)
  }

  /**
   * The alignment tests of the formatter, isSameMinute(startOfX(d), d) and
   * isSameMinute(endOfX(d), d), read as conditions on the fields of d.
   */
  lemma AlignmentFields(d: DateTime)
    requires d.Valid()
    ensures SameMinute(StartOfYear(d), d)
            <==> d.month == 1 && d.day == 1 && d.hour == 0 && d.minute == 0
    ensures SameMinute(EndOfYear(d), d)
            <==> d.month == 12 && d.day == 31 && d.hour == 23 && d.minute == 59
    ensures SameMinute(StartOfQuarter(d), d)
            <==> d.month in {1, 4, 7, 10} && d.day == 1 && d.hour == 0 && d.minute == 0
    ensures SameMinute(EndOfQuarter(d), d)
            <==> d.month in {3, 6, 9, 12} && d.day == DaysInMonth(d.year, d.month)
                 && d.hour == 23 && d.minute == 59
    ensures SameMinute(StartOfMonth(d), d)
            <==> d.day == 1 && d.hour == 0 && d.minute == 0
    ensures SameMinute(EndOfMonth(d), d)
            <==> d.day == DaysInMonth(d.year, d.month) && d.hour == 23 && d.minute == 59
  {
  }

  /** The calendar day after a valid day (date-fns addDays(d, 1), as a day). */
  function NextDay(c: CalendarDate): (r: CalendarDate)
    requires c.Valid()
    ensures r.Valid() && DateBefore(c, r)
  {
    if c.day < DaysInMonth(c.year, c.month) then CalendarDate(c.year, c.month, c.day + 1)
    else if c.month < 12 then CalendarDate(c.year, c.month + 1, 1)
    else CalendarDate(c.year + 1, 1, 1)
  }

  /** The calendar day before a valid day. */
  function PreviousDay(c: CalendarDate): (r: CalendarDate)
    requires c.Valid()
    ensures r.Valid() && DateBefore(r, c)
  {
    if c.day > 1 then CalendarDate(c.year, c.month, c.day - 1)
    else if c.month > 1 then CalendarDate(c.year, c.month - 1, DaysInMonth(c.year, c.month - 1))
    else CalendarDate(c.year - 1, 12, 31)
  }

  /** NextDay and PreviousDay undo each other. */
  lemma NextPreviousInverse(c: CalendarDate)
    requires c.Valid()
    ensures PreviousDay(NextDay(c)) == c
    ensures NextDay(PreviousDay(c)) == c
  {
  }

  /** No valid day lies strictly between a day and NextDay of it. */
  lemma NextDayIsSuccessor(c: CalendarDate, x: CalendarDate)
    requires c.Valid() && x.Valid() && DateBefore(c, x)
    ensures NextDay(c) == x || DateBefore(NextDay(c), x)
  {
  }
}
