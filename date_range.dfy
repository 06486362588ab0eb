/**
 * formatDateRange: turns a from/to pair of dates into one display string.
 *
 * The formatter is a cascade of rules tried in order, the first that applies
 * giving the result: a whole year, a whole quarter, whole months, then by
 * granularity dates in different years, in different months, on the same day,
 * and on different days of one month. RuleFor is that decision; FormatDateRange
 * renders the rule it picks.
 *
 * What the source reads from its environment is an input here: `now` is the
 * clock that decides "Today" and "Tomorrow", and Options.clockText is the
 * locale's rendering of an hour and minute (toLocaleTimeString with two-digit
 * hour and minute).
 */
module DateRange {
  import opened Calendar
  import opened Tokens
  import opened TimeText

  /**
   * The formatter's options. `today` only decides whether a year suffix is
   * shown; `clockText` stands for the locale.
   */
  datatype Options = Options(today: DateTime, clockText: (int, int) -> string,
                             includeTime: bool, separator: string)

  /** The options the source fills in when none are given: today is the clock, time shown, "-". */
  function DefaultOptions(now: DateTime, clockText: (int, int) -> string): (o: Options)
    ensures o.today == now && o.includeTime && o.separator == "-"
  {
    Options(now, clockText, true, "-")
  }

  /** date-fns isToday, read against an explicit clock: the day is neither before nor after the clock's. */
  predicate IsToday(d: DateTime, now: DateTime)
    ensures IsToday(d, now) <==> !DateBefore(d.Date(), now.Date()) && !DateBefore(now.Date(), d.Date())
  {
    SameDay(d, now)
  }

  /** date-fns isTomorrow, read against an explicit clock: the calendar day after the clock's. */
  predicate IsTomorrow(d: DateTime, now: DateTime)
    requires now.Valid()
    ensures IsTomorrow(d, now) ==> DateBefore(now.Date(), d.Date()) && !IsToday(d, now)
  {
    d.Date() == NextDay(now.Date())
  }

  /**
   * Tomorrow is the first day after the clock's: a valid day is tomorrow
   * exactly when it comes after the clock's day and no valid day lies between.
   */
  lemma TomorrowIsNextDay(d: DateTime, now: DateTime)
    requires d.Valid() && now.Valid()
    ensures IsTomorrow(d, now) <==>
              DateBefore(now.Date(), d.Date())
              && forall x: CalendarDate :: x.Valid() && DateBefore(now.Date(), x) ==> !DateBefore(x, d.Date())
  {
    var next := NextDay(now.Date());
    if IsTomorrow(d, now) {
      forall x: CalendarDate | x.Valid() && DateBefore(now.Date(), x)
        ensures !DateBefore(x, d.Date())
      {
        NextDayIsSuccessor(now.Date(), x);
      }
    }
    if DateBefore(now.Date(), d.Date())
       && forall x: CalendarDate :: x.Valid() && DateBefore(now.Date(), x) ==> !DateBefore(x, d.Date())
    {
      NextDayIsSuccessor(now.Date(), d.Date());
      assert !DateBefore(next, d.Date());
    }
  }

  lemma TodayIsNotTomorrow(d: DateTime, now: DateTime)
    requires now.Valid() && IsToday(d, now)
    ensures !IsTomorrow(d, now)
  {
  }

  /** formatDateWithoutYear: "Today", "Tomorrow" or "LLL d" (e.g. "Jan 5"). */
  function DateWithoutYear(d: DateTime, now: DateTime): (r: string)
    requires d.Valid() && now.Valid()
    ensures r == "Today" <==> IsToday(d, now)
    ensures r == "Tomorrow" <==> IsTomorrow(d, now)
    ensures !IsToday(d, now) && !IsTomorrow(d, now) ==>
              |r| >= 5 && r[..4] == ShortMonthName(d.month) + " "
              && AllDigits(r[4..]) && ValueOf(r[4..]) == d.day && r[4] != '0'
  {
    if IsToday(d, now) then "Today"
    else if IsTomorrow(d, now) then "Tomorrow"
    else
      var text := ShortMonthName(d.month) + " " + Decimal(d.day);
      DecimalRoundTrip(d.day);
      assert text[4..] == Decimal(d.day);
      text
  }

  /** Where the month, the day and the year sit in "LLL d 'yy". */
  lemma DayTextParts(month: string, day: string, year: string)
    requires |month| == 3 && |year| == 2
    ensures var text := month + " " + day + " '" + year;
            |text| == 8 + |day| && text[..4] == month + " "
            && text[4..|text| - 4] == day && text[|text| - 4..] == " '" + year
  {
    var text := month + " " + day + " '" + year;
    var head, tail := month + " ", " '" + year;
    assert text == head + day + tail;
    assert text[..4] == head;
    assert text[4..|text| - 4] == day;
    assert text[|text| - 4..] == tail;
  }

  /** formatDateWithYear: "Today", "Tomorrow" or "LLL d ''yy" (e.g. "Jan 5 '24"). */
  function DateWithYear(d: DateTime, now: DateTime): (r: string)
    requires d.Valid() && now.Valid()
    ensures r == "Today" <==> IsToday(d, now)
    ensures r == "Tomorrow" <==> IsTomorrow(d, now)
    ensures !IsToday(d, now) && !IsTomorrow(d, now) ==>
              |r| >= 9 && r[..4] == ShortMonthName(d.month) + " "
              && AllDigits(r[4..|r| - 4]) && ValueOf(r[4..|r| - 4]) == d.day && r[4] != '0'
              && r[|r| - 4..] == " '" + ShortYear(d.year)
  {
    if IsToday(d, now) then "Today"
    else if IsTomorrow(d, now) then "Tomorrow"
    else
      var text := ShortMonthName(d.month) + " " + Decimal(d.day) + " '" + ShortYear(d.year);
      DecimalRoundTrip(d.day);
      DayTextParts(ShortMonthName(d.month), Decimal(d.day), ShortYear(d.year));
      text
  }

  /**
   * formatTime of a date (createFormatTime bound to the locale): the compacted
   * locale rendering of its hour and minute, never longer than that rendering.
   */
  function TimeOf(d: DateTime, opts: Options): (r: string)
    ensures |r| <= |opts.clockText(d.hour, d.minute)|
  {
    FormatTime(opts.clockText(d.hour, d.minute))
  }

  /** The ", time" that follows a date text exactly when includeTime is set. */
  function TimePart(d: DateTime, opts: Options): (r: string)
    ensures r == "" <==> !opts.includeTime
    ensures opts.includeTime ==> |r| >= 2 && r[..2] == ", " && r[2..] == TimeOf(d, opts)
  {
    if opts.includeTime then ", " + TimeOf(d, opts) else ""
  }

  /**
   * The year suffix: nothing when `from` lies in the year of `today`, otherwise
   * ", " and the four-digit year of `to`.
   */
  function YearSuffix(from: DateTime, to: DateTime, today: DateTime): (r: string)
    ensures r == "" <==> SameYear(from, today)
    ensures r != "" ==> |r| >= 6 && r[..2] == ", " && AllDigits(r[2..]) && ValueOf(r[2..]) == EraYear(to.year)
    ensures r != "" && EraYear(to.year) < 10000 ==> |r| == 6
    ensures |r| > 6 ==> r[2] != '0'
  {
    if SameYear(from, today) then ""
    else
      var suffix := ", " + FullYear(to.year);
      assert suffix[2..] == FullYear(to.year);
      suffix
  }

  /** `from` is at the first minute of its year and `to` at the last minute of its year. */
  predicate SpansYears(from: DateTime, to: DateTime)
    requires from.Valid() && to.Valid()
    ensures SpansYears(from, to) <==>
              from.month == 1 && from.day == 1 && from.hour == 0 && from.minute == 0
              && to.month == 12 && to.day == 31 && to.hour == 23 && to.minute == 59
  {
    AlignmentFields(from);
    AlignmentFields(to);
    SameMinute(StartOfYear(from), from) && SameMinute(EndOfYear(to), to)
  }

  /** `from` starts a quarter, `to` ends one, and both quarters have the same number. */
  predicate SpansQuarter(from: DateTime, to: DateTime)
    requires from.Valid() && to.Valid()
    ensures SpansQuarter(from, to) <==>
              from.month in {1, 4, 7, 10} && from.day == 1 && from.hour == 0 && from.minute == 0
              && to.month == from.month + 2 && to.day == DaysInMonth(to.year, to.month)
              && to.hour == 23 && to.minute == 59
  {
    AlignmentFields(from);
    AlignmentFields(to);
    SameMinute(StartOfQuarter(from), from) && SameMinute(EndOfQuarter(to), to)
    && Quarter(from) == Quarter(to)
  }

  /** `from` is at the first minute of its month and `to` at the last minute of its month. */
  predicate SpansMonths(from: DateTime, to: DateTime)
    requires from.Valid() && to.Valid()
    ensures SpansMonths(from, to) <==>
              from.day == 1 && from.hour == 0 && from.minute == 0
              && to.day == DaysInMonth(to.year, to.month) && to.hour == 23 && to.minute == 59
  {
    AlignmentFields(from);
    AlignmentFields(to);
    SameMinute(StartOfMonth(from), from) && SameMinute(EndOfMonth(to), to)
  }

  /** The rules of the cascade, in the order they are tried. */
  datatype Rule =
    | WholeYear | WholeQuarter | WholeMonths
    | AcrossYears | AcrossMonths | WithinDay | AcrossDays

  /**
   * The first rule of the cascade that applies to the pair: each rule is
   * picked exactly when its own test holds and no earlier rule's test does.
   */
  function RuleFor(from: DateTime, to: DateTime): (r: Rule)
    requires from.Valid() && to.Valid()
    ensures r == WholeYear <==> SpansYears(from, to)
    ensures r == WholeQuarter <==> !SpansYears(from, to) && SpansQuarter(from, to)
    ensures r == WholeMonths <==>
              !SpansYears(from, to) && !SpansQuarter(from, to) && SpansMonths(from, to)
    ensures r in {AcrossYears, AcrossMonths, WithinDay, AcrossDays} <==>
              !SpansYears(from, to) && !SpansQuarter(from, to) && !SpansMonths(from, to)
    ensures r in {AcrossYears, AcrossMonths, WithinDay, AcrossDays} ==>
              (r == AcrossYears <==> !SameYear(from, to))
              && (r == AcrossMonths <==> SameYear(from, to) && !SameMonth(from, to))
              && (r == WithinDay <==> SameDay(from, to))
              && (r == AcrossDays <==> SameMonth(from, to) && !SameDay(from, to))
  {
    if SpansYears(from, to) then WholeYear
    else if SpansQuarter(from, to) then WholeQuarter
    else if SpansMonths(from, to) then WholeMonths
    else if !SameYear(from, to) then AcrossYears
    else if !SameMonth(from, to) then AcrossMonths
    else if SameDay(from, to) then WithinDay
    else AcrossDays
  }

  /** formatDateRange(from, to, options), with the clock `now` made explicit. */
  function FormatDateRange(from: DateTime, to: DateTime, now: DateTime, opts: Options): (r: string)
    requires from.Valid() && to.Valid() && now.Valid()
    ensures |r| >= 4
  {
    var sep := opts.separator;
    match RuleFor(from, to)
    case WholeYear =>
      FullYear(from.year)
    case WholeQuarter =>
      "Q" + Decimal(Quarter(from)) + " " + FullYear(from.year)
    case WholeMonths =>
      if SameMonth(from, to) && SameYear(from, to) then
        LongMonthName(from.month) + " " + FullYear(from.year)
      else
        ShortMonthName(from.month) + " " + sep + " " + ShortMonthName(to.month) + " " + FullYear(to.year)
    case AcrossYears =>
      DateWithoutYear(from, now) + TimePart(from, opts) + " " + sep + " "
      + DateWithYear(to, now) + TimePart(to, opts)
    case AcrossMonths =>
      DateWithoutYear(from, now) + TimePart(from, opts) + " " + sep + " "
      + DateWithoutYear(to, now) + TimePart(to, opts) + YearSuffix(from, to, opts.today)
    case WithinDay =>
      DateWithoutYear(from, now)
      + (if opts.includeTime then ", " + TimeOf(from, opts) + " " + sep + " " + TimeOf(to, opts) else "")
      + YearSuffix(from, to, opts.today)
    case AcrossDays =>
      DateWithoutYear(from, now) + TimePart(from, opts) + " " + sep + " "
      + DateWithoutYear(to, now) + TimePart(to, opts) + YearSuffix(from, to, opts.today)
  }

  // ---------------------------------------------------------------------------
  // Which rule applies
  // ---------------------------------------------------------------------------

  /**
   * The whole-year rule comes first: a `from` at 00:00 on 1 January and a `to`
   * at 23:59 on 31 December give the four-digit year of `from` and nothing
   * else, whatever year `to` is in and whatever the options.
   */
  lemma WholeYearWins(from: DateTime, to: DateTime, now: DateTime, opts: Options)
    requires from.Valid() && to.Valid() && now.Valid()
    requires from.month == 1 && from.day == 1 && from.hour == 0 && from.minute == 0
    requires to.month == 12 && to.day == 31 && to.hour == 23 && to.minute == 59
    ensures RuleFor(from, to) == WholeYear
    ensures FormatDateRange(from, to, now, opts) == FullYear(from.year)
    ensures AllDigits(FormatDateRange(from, to, now, opts))
            && ValueOf(FormatDateRange(from, to, now, opts)) == EraYear(from.year)
  {
    AlignmentFields(from);
    AlignmentFields(to);
  }

  /** Whatever picked the whole-year rule, the text is the year of `from`. */
  lemma WholeYearText(from: DateTime, to: DateTime, now: DateTime, opts: Options)
    requires from.Valid() && to.Valid() && now.Valid()
    requires RuleFor(from, to) == WholeYear
    ensures FormatDateRange(from, to, now, opts) == FullYear(from.year)
  {
  }

  /**
   * The whole-quarter rule applies exactly when `from` is at the first minute
   * of a quarter, `to` at the last minute of a quarter, and the quarter numbers
   * agree; the years are not compared. Such a pair never spans a whole year, so
   * the earlier rule cannot take it.
   */
  lemma WholeQuarterRule(from: DateTime, to: DateTime)
    requires from.Valid() && to.Valid()
    ensures RuleFor(from, to) == WholeQuarter <==>
              from.month in {1, 4, 7, 10} && from.day == 1 && from.hour == 0 && from.minute == 0
              && to.month in {3, 6, 9, 12} && to.day == DaysInMonth(to.year, to.month)
              && to.hour == 23 && to.minute == 59
              && to.month == from.month + 2
  {
    AlignmentFields(from);
    AlignmentFields(to);
  }

  /** A whole quarter prints as "Q", the quarter digit, a space and the year of `from`. */
  lemma WholeQuarterText(from: DateTime, to: DateTime, now: DateTime, opts: Options)
    requires from.Valid() && to.Valid() && now.Valid()
    requires RuleFor(from, to) == WholeQuarter
    ensures Quarter(from) == (from.month - 1) / 3 + 1
    ensures FormatDateRange(from, to, now, opts)
            == "Q" + [DigitChar(Quarter(from))] + " " + FullYear(from.year)
  {
  }

  /**
   * The whole-months rule applies when `from` starts a month and `to` ends one
   * and neither earlier rule did; it prints the full month name and year when
   * both are in one month, and "LLL sep LLL yyyy" otherwise.
   */
  lemma WholeMonthsText(from: DateTime, to: DateTime, now: DateTime, opts: Options)
    requires from.Valid() && to.Valid() && now.Valid()
    requires RuleFor(from, to) == WholeMonths
    ensures from.day == 1 && from.hour == 0 && from.minute == 0
    ensures to.day == DaysInMonth(to.year, to.month) && to.hour == 23 && to.minute == 59
    ensures var r := FormatDateRange(from, to, now, opts);
            if SameMonth(from, to) then r == LongMonthName(from.month) + " " + FullYear(from.year)
            else r == ShortMonthName(from.month) + " " + opts.separator + " "
                      + ShortMonthName(to.month) + " " + FullYear(to.year)
  {
    AlignmentFields(from);
    AlignmentFields(to);
  }

  /**
   * The whole-months rule applies exactly when `from` starts a month and `to`
   * ends one, unless the pair is a whole year (January to December, whatever
   * the years) or a whole quarter (a quarter's first month to its last).
   */
  lemma WholeMonthsRule(from: DateTime, to: DateTime)
    requires from.Valid() && to.Valid()
    ensures RuleFor(from, to) == WholeMonths <==>
              from.day == 1 && from.hour == 0 && from.minute == 0
              && to.day == DaysInMonth(to.year, to.month) && to.hour == 23 && to.minute == 59
              && !(from.month == 1 && to.month == 12)
              && !(from.month in {1, 4, 7, 10} && to.month == from.month + 2)
  {
  }

  /**
   * Whole months that are not one month of one year, a quarter or a year
   * print as "LLL sep LLL yyyy", with the year of `to`.
   */
  lemma SeveralWholeMonths(from: DateTime, to: DateTime, now: DateTime, opts: Options)
    requires from.Valid() && to.Valid() && now.Valid()
    requires !SameMonth(from, to)
    requires from.day == 1 && from.hour == 0 && from.minute == 0
    requires to.day == DaysInMonth(to.year, to.month) && to.hour == 23 && to.minute == 59
    requires !(from.month == 1 && to.month == 12)
    requires !(from.month in {1, 4, 7, 10} && to.month == from.month + 2)
    ensures RuleFor(from, to) == WholeMonths
    ensures FormatDateRange(from, to, now, opts)
            == ShortMonthName(from.month) + " " + opts.separator + " "
               + ShortMonthName(to.month) + " " + FullYear(to.year)
  {
    WholeMonthsRule(from, to);
    WholeMonthsText(from, to, now, opts);
  }

  /**
   * One whole calendar month is never taken by the year or quarter rules (no
   * month both starts and ends a quarter), so it always prints as "LLLL yyyy".
   */
  lemma WholeSingleMonth(from: DateTime, to: DateTime, now: DateTime, opts: Options)
    requires from.Valid() && to.Valid() && now.Valid()
    requires SameMonth(from, to)
    requires from.day == 1 && from.hour == 0 && from.minute == 0
    requires to.day == DaysInMonth(to.year, to.month) && to.hour == 23 && to.minute == 59
    ensures RuleFor(from, to) == WholeMonths
    ensures FormatDateRange(from, to, now, opts) == LongMonthName(from.month) + " " + FullYear(from.year)
  {
    AlignmentFields(from);
    AlignmentFields(to);
  }

  /**
   * The whole-period rules print no time and no day text: their output does
   * not depend on the clock, on `today`, on the locale or on includeTime; the
   * whole-year and whole-quarter texts not even on the separator.
   */
  lemma PeriodTextIgnoresOptions(from: DateTime, to: DateTime, now: DateTime, now': DateTime,
                                 opts: Options, opts': Options)
    requires from.Valid() && to.Valid() && now.Valid() && now'.Valid()
    requires RuleFor(from, to) in {WholeYear, WholeQuarter, WholeMonths}
    requires RuleFor(from, to) == WholeMonths ==> opts.separator == opts'.separator
    ensures FormatDateRange(from, to, now, opts) == FormatDateRange(from, to, now', opts')
  {
  }

  // ---------------------------------------------------------------------------
  // The granularity rules
  // ---------------------------------------------------------------------------

  /**
   * Dates in different years (and no whole period): `from` without a year,
   * `to` with "'yy", each followed by ", time" exactly when includeTime is
   * set, and no year suffix.
   */
  lemma AcrossYearsText(from: DateTime, to: DateTime, now: DateTime, opts: Options)
    requires from.Valid() && to.Valid() && now.Valid()
    requires !SameYear(from, to)
    requires !SpansYears(from, to) && !SpansQuarter(from, to) && !SpansMonths(from, to)
    ensures RuleFor(from, to) == AcrossYears
    ensures FormatDateRange(from, to, now, opts)
            == DateWithoutYear(from, now) + TimePart(from, opts) + " " + opts.separator + " "
               + DateWithYear(to, now) + TimePart(to, opts)
  {
  }

  /**
   * In the three remaining rules the year suffix closes the text: it is empty
   * exactly when `from` is in the year of `today`, and otherwise ", " and the
   * year of `to`.
   */
  lemma YearSuffixAtEnd(from: DateTime, to: DateTime, now: DateTime, opts: Options)
    requires from.Valid() && to.Valid() && now.Valid()
    requires RuleFor(from, to) in {AcrossMonths, WithinDay, AcrossDays}
    ensures var r, s := FormatDateRange(from, to, now, opts), YearSuffix(from, to, opts.today);
            |r| >= |s| && r[|r| - |s|..] == s
            && (s == "" <==> from.year == opts.today.year)
            && (s != "" ==> ValueOf(s[2..]) == EraYear(from.year))
  {
  }

  /**
   * On one day the two times share a single day text: "text, t1 sep t2";
   * without times the text is only the text and the year suffix.
   */
  lemma WithinDayText(from: DateTime, to: DateTime, now: DateTime, opts: Options)
    requires from.Valid() && to.Valid() && now.Valid()
    requires SameDay(from, to)
    requires !SpansYears(from, to) && !SpansQuarter(from, to) && !SpansMonths(from, to)
    ensures RuleFor(from, to) == WithinDay
    ensures var r := FormatDateRange(from, to, now, opts);
            if opts.includeTime then
              r == DateWithoutYear(from, now)
                   + (", " + TimeOf(from, opts) + " " + opts.separator + " " + TimeOf(to, opts))
                   + YearSuffix(from, to, opts.today)
            else
              r == DateWithoutYear(from, now) + YearSuffix(from, to, opts.today)
  {
    assert RuleFor(from, to) == WithinDay;
    if !opts.includeTime {
      assert DateWithoutYear(from, now) + "" == DateWithoutYear(from, now);
    }
  }

  /**
   * Different days of one year (different months, or one month): both sides
   * carry a text without year, each with its optional time, then the suffix.
   */
  lemma AcrossDaysText(from: DateTime, to: DateTime, now: DateTime, opts: Options)
    requires from.Valid() && to.Valid() && now.Valid()
    requires SameYear(from, to) && !SameDay(from, to)
    requires !SpansYears(from, to) && !SpansQuarter(from, to) && !SpansMonths(from, to)
    ensures RuleFor(from, to) == (if SameMonth(from, to) then AcrossDays else AcrossMonths)
    ensures FormatDateRange(from, to, now, opts)
            == DateWithoutYear(from, now) + TimePart(from, opts) + " " + opts.separator + " "
               + DateWithoutYear(to, now) + TimePart(to, opts) + YearSuffix(from, to, opts.today)
  {
  }

  /** Once no whole period matches, the text opens with the date text of `from`. */
  lemma DayTextOpens(from: DateTime, to: DateTime, now: DateTime, opts: Options)
    requires from.Valid() && to.Valid() && now.Valid()
    requires RuleFor(from, to) !in {WholeYear, WholeQuarter, WholeMonths}
    ensures var r, text := FormatDateRange(from, to, now, opts), DateWithoutYear(from, now);
            |text| <= |r| && r[..|text|] == text
  {
    var text := DateWithoutYear(from, now);
    var n := |text|;
    var sep := opts.separator;
    if RuleFor(from, to) == AcrossYears {
      AcrossYearsText(from, to, now, opts);
      var a := text + TimePart(from, opts);
      KeepsPrefix(text, TimePart(from, opts), n);
      KeepsPrefix(a, " ", n);
      KeepsPrefix(a + " ", sep, n);
      KeepsPrefix(a + " " + sep, " ", n);
      KeepsPrefix(a + " " + sep + " ", DateWithYear(to, now), n);
      KeepsPrefix(a + " " + sep + " " + DateWithYear(to, now), TimePart(to, opts), n);
    } else if RuleFor(from, to) == WithinDay {
      WithinDayText(from, to, now, opts);
      var times := if opts.includeTime then ", " + TimeOf(from, opts) + " " + sep + " " + TimeOf(to, opts) else "";
      KeepsPrefix(text, times, n);
      KeepsPrefix(text + times, YearSuffix(from, to, opts.today), n);
    } else {
      AcrossDaysText(from, to, now, opts);
      var a := text + TimePart(from, opts);
      KeepsPrefix(text, TimePart(from, opts), n);
      KeepsPrefix(a, " ", n);
      KeepsPrefix(a + " ", sep, n);
      KeepsPrefix(a + " " + sep, " ", n);
      KeepsPrefix(a + " " + sep + " ", DateWithoutYear(to, now), n);
      KeepsPrefix(a + " " + sep + " " + DateWithoutYear(to, now), TimePart(to, opts), n);
      KeepsPrefix(a + " " + sep + " " + DateWithoutYear(to, now) + TimePart(to, opts),
                  YearSuffix(from, to, opts.today), n);
    }
  }

  /**
   * Once no whole period matches, the text opens with "Today" exactly when
   * `from` is on the clock's day, and with "Tomorrow" exactly when it is on
   * the next day: no month abbreviation starts like either label.
   */
  lemma RelativeDayFirst(from: DateTime, to: DateTime, now: DateTime, opts: Options)
    requires from.Valid() && to.Valid() && now.Valid()
    requires RuleFor(from, to) !in {WholeYear, WholeQuarter, WholeMonths}
    ensures var r := FormatDateRange(from, to, now, opts);
            (IsToday(from, now) <==> |r| >= 5 && r[..5] == "Today")
            && (IsTomorrow(from, now) <==> |r| >= 8 && r[..8] == "Tomorrow")
  {
    DayTextOpens(from, to, now, opts);
    LabelOpens(FormatDateRange(from, to, now, opts), from, now);
  }

  /** A text that opens with the date text of `d` opens with a label exactly when `d` is on that day. */
  lemma LabelOpens(r: string, d: DateTime, now: DateTime)
    requires d.Valid() && now.Valid()
    requires |DateWithoutYear(d, now)| <= |r| && r[..|DateWithoutYear(d, now)|] == DateWithoutYear(d, now)
    ensures IsToday(d, now) <==> |r| >= 5 && r[..5] == "Today"
    ensures IsTomorrow(d, now) <==> |r| >= 8 && r[..8] == "Tomorrow"
  {
    var text := DateWithoutYear(d, now);
    if IsToday(d, now) {
      assert r[..5] == text;
      assert r[2] == text[2] == 'd';
      if |r| >= 8 {
        assert r[..8][2] == r[2];
      }
    } else if IsTomorrow(d, now) {
      assert r[..8] == text;
      assert r[2] == text[2] == 'm';
      assert r[..5][2] == r[2];
    } else {
      assert r[..3] == text[..4][..3];
      MonthOpensNoLabel(r, d.month);
    }
  }

  /** A text that opens with a month abbreviation opens with neither label. */
  lemma MonthOpensNoLabel(r: string, month: int)
    requires 1 <= month <= 12 && |r| >= 3 && r[..3] == ShortMonthName(month)
    ensures !(|r| >= 5 && r[..5] == "Today") && !(|r| >= 8 && r[..8] == "Tomorrow")
  {
    ShortMonthRoundTrip(month);
    assert ShortMonthNumber("Tod") == 0 && ShortMonthNumber("Tom") == 0;
    if |r| >= 5 {
      assert r[..5][..3] == r[..3];
    }
    if |r| >= 8 {
      assert r[..8][..3] == r[..3];
    }
  }

  /** Appending to a string keeps its first n characters. */
  lemma KeepsPrefix(a: string, b: string, n: nat)
    requires n <= |a|
    ensures (a + b)[..n] == a[..n]
  {
  }

  /** The rule depends on `from` and `to` only to the minute. */
  lemma RuleToTheMinute(from: DateTime, to: DateTime, from': DateTime, to': DateTime)
    requires from.Valid() && to.Valid() && from'.Valid() && to'.Valid()
    requires SameMinute(from, from') && SameMinute(to, to')
    ensures RuleFor(from', to') == RuleFor(from, to)
  {
    AlignmentFields(from);
    AlignmentFields(to);
    AlignmentFields(from');
    AlignmentFields(to');
  }

  /** So do the day texts, the times and the year suffix. */
  lemma PartsToTheMinute(d: DateTime, d': DateTime, now: DateTime, opts: Options)
    requires d.Valid() && d'.Valid() && now.Valid() && SameMinute(d, d')
    ensures DateWithoutYear(d', now) == DateWithoutYear(d, now)
    ensures DateWithYear(d', now) == DateWithYear(d, now)
    ensures TimePart(d', opts) == TimePart(d, opts) && TimeOf(d', opts) == TimeOf(d, opts)
  {
    assert d'.Date() == d.Date();
  }

  /**
   * The rules compare at minute precision (isSameMinute) and the locale is
   * asked for hours and minutes only, so two pairs of dates that agree to the
   * minute get the same text: seconds and milliseconds never show.
   */
  lemma MinutePrecision(from: DateTime, to: DateTime, from': DateTime, to': DateTime,
                        now: DateTime, opts: Options)
    requires from.Valid() && to.Valid() && from'.Valid() && to'.Valid() && now.Valid()
    requires SameMinute(from, from') && SameMinute(to, to')
    ensures FormatDateRange(from', to', now, opts) == FormatDateRange(from, to, now, opts)
  {
    RuleToTheMinute(from, to, from', to');
    PartsToTheMinute(from, from', now, opts);
    PartsToTheMinute(to, to', now, opts);
    match RuleFor(from, to)
    case WholeYear =>
      WholeYearText(from, to, now, opts);
      WholeYearText(from', to', now, opts);
    case WholeQuarter =>
      WholeQuarterText(from, to, now, opts);
      WholeQuarterText(from', to', now, opts);
    case WholeMonths =>
      WholeMonthsText(from, to, now, opts);
      WholeMonthsText(from', to', now, opts);
    case AcrossYears =>
      AcrossYearsText(from, to, now, opts);
      AcrossYearsText(from', to', now, opts);
    case WithinDay =>
      WithinDayText(from, to, now, opts);
      WithinDayText(from', to', now, opts);
    case _ =>
      AcrossDaysText(from, to, now, opts);
      AcrossDaysText(from', to', now, opts);
  }
}
