/**
 * The formatter on concrete dates, with the en-US locale's 12-hour clock
 * ("09:00 AM") as the time rendering.
 */
module RangeExamples {
  import opened Calendar
  import opened Tokens
  import opened TimeText
  import opened DateRange

  /** The hour on a 12-hour dial: 0 and 12 read 12. */
  function Hour12(hour: int): (h: nat)
    requires 0 <= hour < 24
    ensures 1 <= h <= 12 && h % 12 == hour % 12
  {
    if hour % 12 == 0 then 12 else hour % 12
  }

  /**
   * en-US toLocaleTimeString with two-digit hour and minute, e.g. "09:05 PM":
   * the two-digit 12-hour hour, ':', the two-digit minute, a space and the
   * meridiem.
   */
  function EnUsClock(hour: int, minute: int): (s: string)
    ensures 0 <= hour < 24 && 0 <= minute < 60 ==>
              |s| == 8 && AllDigits(s[..2]) && ValueOf(s[..2]) == Hour12(hour) && s[2] == ':'
              && AllDigits(s[3..5]) && ValueOf(s[3..5]) == minute
              && s[5..] == (if hour < 12 then " AM" else " PM")
  {
    if 0 <= hour < 24 && 0 <= minute < 60 then
      TwelveHourLayout(Hour12(hour), minute, hour >= 12);
      TwelveHourText(Hour12(hour), minute, hour >= 12)
    else ""
  }

  /** In en-US, formatTime gives the unpadded 12-hour hour, ":mm" unless on the hour, and "am"/"pm". */
  lemma EnUsTime(hour: int, minute: int)
    requires 0 <= hour < 24 && 0 <= minute < 60
    ensures FormatTime(EnUsClock(hour, minute))
            == Decimal(Hour12(hour))
               + ((if minute == 0 then "" else ":" + Padded(minute, 2)) + (if hour < 12 then "am" else "pm"))
  {
    FormatTwelveHour(Hour12(hour), minute, hour >= 12);
  }

  /** `d` holds the given local fields, at second 0 and millisecond 0. */
  predicate At(d: DateTime, year: int, month: int, day: int, hour: int, minute: int) {
    d.year == year && d.month == month && d.day == day && d.hour == hour && d.minute == minute
    && d.second == 0 && d.ms == 0
  }

  /** The options as the source fills them in, with the clock reading `now`; the locale is left open. */
  predicate Defaults(opts: Options, now: DateTime, includeTime: bool) {
    opts.today == now && opts.includeTime == includeTime && opts.separator == "-"
  }

  lemma FullYear2024()
    ensures FullYear(2024) == "2024"
  {
    assert Decimal(2024) == "2024";
  }

  lemma FullYear2023()
    ensures FullYear(2023) == "2023"
  {
    assert Decimal(2023) == "2023";
  }

  /** 2024-01-01 00:00 to 2024-12-31 23:59 is "2024". */
  lemma WholeYearExample(from: DateTime, to: DateTime, now: DateTime, opts: Options)
    requires At(from, 2024, 1, 1, 0, 0) && At(to, 2024, 12, 31, 23, 59) && At(now, 2024, 5, 1, 12, 0)
    requires Defaults(opts, now, true)
    ensures FormatDateRange(from, to, now, opts) == "2024"
  {
    WholeYearWins(from, to, now, opts);
    FullYear2024();
  }

  /** The year rule also takes a range that ends a year later: 2023-01-01 to 2024-12-31 is "2023". */
  lemma WholeYearLaterEndExample(from: DateTime, to: DateTime, now: DateTime, opts: Options)
    requires At(from, 2023, 1, 1, 0, 0) && At(to, 2024, 12, 31, 23, 59) && At(now, 2024, 5, 1, 12, 0)
    requires Defaults(opts, now, true)
    ensures FormatDateRange(from, to, now, opts) == "2023"
  {
    WholeYearWins(from, to, now, opts);
    FullYear2023();
  }

  /*
   * Each example below is proved in three steps, kept apart so that no proof
   * has to unfold the formatter on concrete dates: a lemma on the dates alone
   * finds the rule and the day texts, a lemma over those facts fixes the
   * text, and a lemma without dates spells it out.
   */

  /** The locale of `opts` renders hour:minute as en-US does. */
  predicate EnUsAt(opts: Options, hour: int, minute: int) {
    opts.clockText(hour, minute) == EnUsClock(hour, minute)
  }

  /** What formatTime makes of the en-US text of an hour and minute. */
  lemma EnUsTimeText(opts: Options, hour: int, minute: int, text: string)
    requires 0 <= hour < 24 && 0 <= minute < 60 && EnUsAt(opts, hour, minute)
    requires text == Decimal(Hour12(hour))
                     + ((if minute == 0 then "" else ":" + Padded(minute, 2)) + (if hour < 12 then "am" else "pm"))
    ensures FormatTime(opts.clockText(hour, minute)) == text
  {
    EnUsTime(hour, minute);
  }

  lemma TimesSpelled()
    ensures Decimal(Hour12(8)) + ("" + "am") == "8am"
    ensures Decimal(Hour12(9)) + ("" + "am") == "9am"
    ensures Decimal(Hour12(9)) + ((":" + Padded(30, 2)) + "am") == "9:30am"
    ensures Decimal(Hour12(17)) + ("" + "pm") == "5pm"
    ensures Decimal(Hour12(10)) + ("" + "am") == "10am"
  {
    assert Padded(30, 2) == "30";
  }

  // --- a whole quarter ---

  lemma QuarterAcrossYearsRule(from: DateTime, to: DateTime)
    requires At(from, 2023, 1, 1, 0, 0) && At(to, 2024, 3, 31, 23, 59)
    ensures from.Valid() && to.Valid()
    ensures RuleFor(from, to) == WholeQuarter
  {
    WholeQuarterRule(from, to);
  }

  lemma QuarterOneSpelled()
    ensures "Q" + [DigitChar(1)] + " " + FullYear(2023) == "Q1 2023"
  {
    FullYear2023();
  }

  lemma QuarterOneText(from: DateTime, to: DateTime, now: DateTime, opts: Options)
    requires from.Valid() && to.Valid() && now.Valid()
    requires RuleFor(from, to) == WholeQuarter && from.month == 1 && from.year == 2023
    ensures FormatDateRange(from, to, now, opts) == "Q1 2023"
  {
    WholeQuarterText(from, to, now, opts);
    QuarterOneSpelled();
  }

  /** The quarter rule does not compare years: 2023-01-01 to 2024-03-31 23:59 is "Q1 2023". */
  lemma QuarterAcrossYearsExample(from: DateTime, to: DateTime, now: DateTime, opts: Options)
    requires At(from, 2023, 1, 1, 0, 0) && At(to, 2024, 3, 31, 23, 59) && At(now, 2024, 5, 1, 12, 0)
    ensures FormatDateRange(from, to, now, opts) == "Q1 2023"
  {
    assert now.Valid();
    QuarterAcrossYearsRule(from, to);
    QuarterOneText(from, to, now, opts);
  }

  // --- whole months ---

  lemma MarchSpelled()
    ensures LongMonthName(3) + " " + FullYear(2024) == "March 2024"
  {
    FullYear2024();
  }

  lemma MarchText(from: DateTime, to: DateTime, now: DateTime, opts: Options)
    requires from.Valid() && to.Valid() && now.Valid() && SameMonth(from, to)
    requires from.day == 1 && from.hour == 0 && from.minute == 0
    requires to.day == DaysInMonth(to.year, to.month) && to.hour == 23 && to.minute == 59
    requires from.month == 3 && from.year == 2024
    ensures FormatDateRange(from, to, now, opts) == "March 2024"
  {
    WholeSingleMonth(from, to, now, opts);
    MarchSpelled();
  }

  /** March 2024 from its first to its last minute is "March 2024". */
  lemma WholeMonthExample(from: DateTime, to: DateTime, now: DateTime, opts: Options)
    requires At(from, 2024, 3, 1, 0, 0) && At(to, 2024, 3, 31, 23, 59) && At(now, 2024, 5, 1, 12, 0)
    requires Defaults(opts, now, true)
    ensures FormatDateRange(from, to, now, opts) == "March 2024"
  {
    MarchText(from, to, now, opts);
  }

  lemma TwoMonthsFacts(from: DateTime, to: DateTime)
    requires At(from, 2024, 1, 1, 0, 0) && At(to, 2024, 2, 29, 23, 59)
    ensures from.Valid() && to.Valid()
    ensures RuleFor(from, to) == WholeMonths
  {
    AlignmentFields(from);
    AlignmentFields(to);
  }

  lemma JanFebSpelled()
    ensures ShortMonthName(1) + " " + "-" + " " + ShortMonthName(2) + " " + FullYear(2024) == "Jan - Feb 2024"
  {
    FullYear2024();
  }

  lemma JanFebText(from: DateTime, to: DateTime, now: DateTime, opts: Options)
    requires from.Valid() && to.Valid() && now.Valid()
    requires RuleFor(from, to) == WholeMonths && from.month == 1 && to.month == 2 && to.year == 2024
    requires opts.separator == "-"
    ensures FormatDateRange(from, to, now, opts) == "Jan - Feb 2024"
  {
    WholeMonthsText(from, to, now, opts);
    JanFebSpelled();
  }

  /** January and February 2024 are "Jan - Feb 2024". */
  lemma TwoMonthsExample(from: DateTime, to: DateTime, now: DateTime, opts: Options)
    requires At(from, 2024, 1, 1, 0, 0) && At(to, 2024, 2, 29, 23, 59) && At(now, 2024, 5, 1, 12, 0)
    requires Defaults(opts, now, true)
    ensures FormatDateRange(from, to, now, opts) == "Jan - Feb 2024"
  {
    TwoMonthsFacts(from, to);
    JanFebText(from, to, now, opts);
  }

  // --- one day, with times ---

  /** On one day of the year of today, with times: "day, t1 - t2". */
  lemma SameDayTimesText(from: DateTime, to: DateTime, now: DateTime, opts: Options,
                         day: string, t1: string, t2: string)
    requires from.Valid() && to.Valid() && now.Valid()
    requires RuleFor(from, to) == WithinDay && SameYear(from, opts.today)
    requires opts.includeTime && opts.separator == "-"
    requires DateWithoutYear(from, now) == day && TimeOf(from, opts) == t1 && TimeOf(to, opts) == t2
    ensures FormatDateRange(from, to, now, opts) == day + (", " + t1 + " " + "-" + " " + t2)
  {
    WithinDayText(from, to, now, opts);
  }

  lemma TodayFacts(from: DateTime, to: DateTime, now: DateTime)
    requires At(from, 2024, 1, 1, 8, 0) && At(to, 2024, 1, 1, 9, 0) && At(now, 2024, 1, 1, 7, 0)
    ensures from.Valid() && to.Valid() && now.Valid()
    ensures RuleFor(from, to) == WithinDay && DateWithoutYear(from, now) == "Today"
  {
    AlignmentFields(from);
    AlignmentFields(to);
  }

  lemma TodaySpelled()
    ensures "Today" + (", " + "8am" + " " + "-" + " " + "9am") == "Today, 8am - 9am"
  {
  }

  /** 8:00 to 9:00 on the clock's day: "Today, 8am - 9am". */
  lemma TodayExample(from: DateTime, to: DateTime, now: DateTime, opts: Options)
    requires At(from, 2024, 1, 1, 8, 0) && At(to, 2024, 1, 1, 9, 0) && At(now, 2024, 1, 1, 7, 0)
    requires Defaults(opts, now, true) && EnUsAt(opts, 8, 0) && EnUsAt(opts, 9, 0)
    ensures FormatDateRange(from, to, now, opts) == "Today, 8am - 9am"
  {
    TodayFacts(from, to, now);
    TimesSpelled();
    EnUsTimeText(opts, 8, 0, "8am");
    EnUsTimeText(opts, 9, 0, "9am");
    SameDayTimesText(from, to, now, opts, "Today", "8am", "9am");
    TodaySpelled();
  }

  lemma TomorrowFacts(from: DateTime, to: DateTime, now: DateTime)
    requires At(from, 2024, 1, 2, 9, 30) && At(to, 2024, 1, 2, 17, 0) && At(now, 2024, 1, 1, 7, 0)
    ensures from.Valid() && to.Valid() && now.Valid()
    ensures RuleFor(from, to) == WithinDay && DateWithoutYear(from, now) == "Tomorrow"
  {
    AlignmentFields(from);
    AlignmentFields(to);
  }

  lemma TomorrowSpelled()
    ensures "Tomorrow" + (", " + "9:30am" + " " + "-" + " " + "5pm") == "Tomorrow, 9:30am - 5pm"
  {
  }

  /** 9:30 to 17:00 on the day after the clock's: "Tomorrow, 9:30am - 5pm". */
  lemma TomorrowExample(from: DateTime, to: DateTime, now: DateTime, opts: Options)
    requires At(from, 2024, 1, 2, 9, 30) && At(to, 2024, 1, 2, 17, 0) && At(now, 2024, 1, 1, 7, 0)
    requires Defaults(opts, now, true) && EnUsAt(opts, 9, 30) && EnUsAt(opts, 17, 0)
    ensures FormatDateRange(from, to, now, opts) == "Tomorrow, 9:30am - 5pm"
  {
    TomorrowFacts(from, to, now);
    TimesSpelled();
    EnUsTimeText(opts, 9, 30, "9:30am");
    EnUsTimeText(opts, 17, 0, "5pm");
    SameDayTimesText(from, to, now, opts, "Tomorrow", "9:30am", "5pm");
    TomorrowSpelled();
  }

  // --- across a new year, with times ---

  /** Across years, with times: "day1, t1 - day2, t2" and no year suffix. */
  lemma AcrossYearsTimesText(from: DateTime, to: DateTime, now: DateTime, opts: Options,
                             day1: string, day2: string, t1: string, t2: string)
    requires from.Valid() && to.Valid() && now.Valid()
    requires RuleFor(from, to) == AcrossYears
    requires opts.includeTime && opts.separator == "-"
    requires DateWithoutYear(from, now) == day1 && DateWithYear(to, now) == day2
    requires TimeOf(from, opts) == t1 && TimeOf(to, opts) == t2
    ensures FormatDateRange(from, to, now, opts)
            == day1 + (", " + t1) + " " + "-" + " " + day2 + (", " + t2)
  {
    AcrossYearsText(from, to, now, opts);
  }

  lemma AcrossYearsRule(from: DateTime, to: DateTime)
    requires At(from, 2023, 12, 31, 10, 0) && At(to, 2024, 1, 2, 10, 0)
    ensures from.Valid() && to.Valid()
    ensures RuleFor(from, to) == AcrossYears
  {
    assert from.Valid() && to.Valid();
    assert !SpansYears(from, to) && !SpansQuarter(from, to) && !SpansMonths(from, to);
  }

  lemma AcrossYearsDays(from: DateTime, to: DateTime, now: DateTime)
    requires At(from, 2023, 12, 31, 10, 0) && At(to, 2024, 1, 2, 10, 0) && At(now, 2023, 6, 1, 12, 0)
    ensures from.Valid() && to.Valid() && now.Valid()
    ensures DateWithoutYear(from, now) == "Dec 31" && DateWithYear(to, now) == "Jan 2 '24"
  {
    assert Decimal(31) == "31";
    assert ShortYear(2024) == "24";
  }

  lemma AcrossYearsSpelled()
    ensures "Dec 31" + (", " + "10am") + " " + "-" + " " + "Jan 2 '24" + (", " + "10am")
            == "Dec 31, 10am - Jan 2 '24, 10am"
  {
  }

  /** Across a new year: "Dec 31, 10am - Jan 2 '24, 10am", with no year suffix. */
  lemma AcrossYearsExample(from: DateTime, to: DateTime, now: DateTime, opts: Options)
    requires At(from, 2023, 12, 31, 10, 0) && At(to, 2024, 1, 2, 10, 0) && At(now, 2023, 6, 1, 12, 0)
    requires Defaults(opts, now, true) && EnUsAt(opts, 10, 0)
    ensures FormatDateRange(from, to, now, opts) == "Dec 31, 10am - Jan 2 '24, 10am"
  {
    AcrossYearsRule(from, to);
    AcrossYearsDays(from, to, now);
    TimesSpelled();
    EnUsTimeText(opts, 10, 0, "10am");
    AcrossYearsTimesText(from, to, now, opts, "Dec 31", "Jan 2 '24", "10am", "10am");
    AcrossYearsSpelled();
  }

  // --- days of a past year, without times ---

  /** Different days of one month, without times: "day1 - day2" and the year suffix. */
  lemma DaysWithoutTimesText(from: DateTime, to: DateTime, now: DateTime, opts: Options,
                             day1: string, day2: string, year: string)
    requires from.Valid() && to.Valid() && now.Valid()
    requires RuleFor(from, to) == AcrossDays
    requires !opts.includeTime && opts.separator == "-"
    requires DateWithoutYear(from, now) == day1 && DateWithoutYear(to, now) == day2
    requires YearSuffix(from, to, opts.today) == year
    ensures FormatDateRange(from, to, now, opts) == day1 + " - " + day2 + year
  {
    AcrossDaysText(from, to, now, opts);
  }

  lemma PastYearRule(from: DateTime, to: DateTime)
    requires At(from, 2024, 3, 5, 10, 0) && At(to, 2024, 3, 7, 10, 0)
    ensures from.Valid() && to.Valid()
    ensures RuleFor(from, to) == AcrossDays
  {
    AlignmentFields(from);
    AlignmentFields(to);
  }

  lemma PastYearDays(from: DateTime, to: DateTime, now: DateTime)
    requires At(from, 2024, 3, 5, 10, 0) && At(to, 2024, 3, 7, 10, 0) && At(now, 2025, 6, 1, 12, 0)
    ensures from.Valid() && to.Valid() && now.Valid()
    ensures DateWithoutYear(from, now) == "Mar 5" && DateWithoutYear(to, now) == "Mar 7"
    ensures YearSuffix(from, to, now) == ", 2024"
  {
    FullYear2024();
  }

  lemma PastYearSpelled()
    ensures "Mar 5" + " - " + "Mar 7" + ", 2024" == "Mar 5 - Mar 7, 2024"
  {
  }

  /** Days of a past year, without times: "Mar 5 - Mar 7, 2024". */
  lemma PastYearExample(from: DateTime, to: DateTime, now: DateTime, opts: Options)
    requires At(from, 2024, 3, 5, 10, 0) && At(to, 2024, 3, 7, 10, 0) && At(now, 2025, 6, 1, 12, 0)
    requires Defaults(opts, now, false)
    ensures FormatDateRange(from, to, now, opts) == "Mar 5 - Mar 7, 2024"
  {
    PastYearRule(from, to);
    PastYearDays(from, to, now);
    DaysWithoutTimesText(from, to, now, opts, "Mar 5", "Mar 7", ", 2024");
    PastYearSpelled();
  }
}
