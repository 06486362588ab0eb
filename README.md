# little-date: formatDateRange in Dafny

This project models the date-range formatter of little-date
(`src/format-date-range.ts`) and proves properties of it. The formatter turns a
`from`/`to` pair of dates into one short display string such as "2024",
"Q1 2023", "March 2024", "Jan - Feb 2024", "Today, 8am - 9am" or
"Dec 31, 10am - Jan 2 '24, 10am".

The formatter is pure, so the model is made of datatypes, functions and lemmas:

- `Calendar`: local date fields (`DateTime`) with Gregorian validity. It also
  holds the date-fns helpers the formatter calls: `isSameYear`, `isSameMonth`,
  `isSameDay`, `isSameMinute`, `getQuarter`, `startOf`/`endOf` for year, quarter
  and month, and the next calendar day that `isTomorrow` uses.
- `Tokens`: the format tokens used, which are `yyyy`, `yy`, `d`, `LLL` and
  `LLLL` (English month names). It also has a digit reader, so renderings can
  be read back.
- `TimeText`: global literal replacement, `shortenAmPm`, `removeLeadingZero`
  and `formatTime`, plus lemmas about the shapes locales render times in.
- `DateRange`: the options, the "Today"/"Tomorrow" labels with and without a
  year, the year suffix, the cascade of rules (`RuleFor`) and
  `FormatDateRange`. Lemmas give the text of every branch.
- `RangeExamples`: concrete ranges, with the en-US 12-hour clock as the
  locale's time rendering.

The formatter reads two things from its environment, and the model takes both
as inputs:

- The current clock that `isToday` and `isTomorrow` consult is the `now`
  parameter. It is separate from the `today` option, which the code uses only
  for the year suffix.
- `Date.prototype.toLocaleTimeString(locale, {hour: '2-digit', minute: '2-digit'})`
  is the `clockText` function in `Options`. It maps an hour and a minute to the
  locale's raw text.

The formatter has no full-day rule and no day-count rule. The weekday format
`EEE` appears only in the inner `formatDate`, which is never called.

## Model

| member | source | states |
|---|---|---|
| Tokens.FullYear | src/format-date-range.ts:94 | `yyyy` is all digits, reads back as the era year, is exactly four characters for years below 10000 and has no leading zero when longer |
| Tokens.ShortYear | src/format-date-range.ts:121 | `yy` is two digits reading back as the era year modulo 100 |
| Tokens.DecimalRoundTrip | src/format-date-range.ts:127 | the unpadded day number (`d`) reads back as the number it renders |
| Tokens.DecimalInjective | src/format-date-range.ts:127 | different numbers never render as the same `d` text |
| Tokens.Padded | src/format-date-range.ts:33-36 | a two-digit rendering reads back as its number and has exactly the requested width when the number fits; a wider number is its unpadded rendering |
| Tokens.PaddedTwoUnpads | src/format-date-range.ts:28-36 | dropping one leading '0' from a two-digit hour gives the unpadded hour, and only hours below ten start with '0' |
| Tokens.LongMonthName | src/format-date-range.ts:113 | `LLLL` starts with the `LLL` abbreviation of the same month |
| Tokens.ShortMonthRoundTrip | src/format-date-range.ts:116 | the `LLL` abbreviation of every month reads back as that month |
| Tokens.MonthNamesDistinct | src/format-date-range.ts:113-116 | two months get the same `LLL`, or the same `LLLL`, exactly when they are the same month |
| Calendar.SameMinute | src/format-date-range.ts:91 | `isSameMinute` implies the same day, and two moments of one minute with equal seconds and milliseconds are the same moment |
| Calendar.SameYear | src/format-date-range.ts:70 | `isSameYear`: within one year, days are ordered by month and then by day |
| Calendar.SameMonth | src/format-date-range.ts:71 | `isSameMonth` implies the same year, and within one month days are ordered by day |
| Calendar.SameDay | src/format-date-range.ts:72 | `isSameDay` implies the same month, and holds exactly when neither day comes before the other |
| Calendar.DaysInMonth | src/format-date-range.ts:109 | a month has 28 to 31 days, and February has 29 exactly in leap years |
| Calendar.Quarter | src/format-date-range.ts:101 | `getQuarter` is 1 to 4, and the quarter q holds months 3q-2 to 3q |
| Calendar.StartOfYear | src/format-date-range.ts:91 | `startOfYear` is the earliest valid moment of the date's year |
| Calendar.EndOfYear | src/format-date-range.ts:92 | `endOfYear` is the latest valid moment of the date's year |
| Calendar.StartOfQuarter | src/format-date-range.ts:99 | `startOfQuarter` is the earliest moment of the same year and quarter |
| Calendar.EndOfQuarter | src/format-date-range.ts:100 | `endOfQuarter` is the latest moment of the same year and quarter |
| Calendar.StartOfMonth | src/format-date-range.ts:108 | `startOfMonth` is the earliest moment of the same month |
| Calendar.EndOfMonth | src/format-date-range.ts:109 | `endOfMonth` is the latest moment of the same month |
| Calendar.AlignmentFields | src/format-date-range.ts:89-110 | each `isSameMinute(startOfX(d), d)` / `isSameMinute(endOfX(d), d)` test holds exactly when the fields are at the first or last minute of the period |
| Calendar.NextDay | src/format-date-range.ts:120 | the day `isTomorrow` looks for is a valid day after the given one |
| Calendar.NextPreviousInverse | src/format-date-range.ts:120 | stepping one day forward and one day back, in either order, returns the same day |
| Calendar.NextDayIsSuccessor | src/format-date-range.ts:120 | no valid day lies strictly between a day and the next day |
| TimeText.ReplaceAll | src/format-date-range.ts:21-23 | a global literal replace never lengthens the text when the replacement is no longer than the pattern, and keeps its length when both are equally long |
| TimeText.ReplaceAllNoOccurrence | src/format-date-range.ts:21 | a global replace of a pattern that does not occur leaves the text unchanged |
| TimeText.ReplaceAllLeavesNo | src/format-date-range.ts:21 | when the replacement is non-empty and shares no character with a text q (as "am" and "pm" share none with " AM" and " PM"), no q is left if q is the pattern, and none is created if q did not occur before |
| TimeText.MeridiemsCompacted | src/format-date-range.ts:21 | after the first line of `shortenAmPm`, no " AM" and no " PM" is left in the text |
| TimeText.ShortenAmPm | src/format-date-range.ts:20-26 | empty input gives "", and the result is never longer than the input |
| TimeText.ShortenWithoutMarkers | src/format-date-range.ts:20-26 | a text with no " AM", no " PM" and no lowercase 'm' is returned unchanged, ":00" included |
| TimeText.ShortenLeavesPlainText | src/format-date-range.ts:22-24 | text without a space or an 'm' keeps every ":00" |
| TimeText.ShortenTwelveHour | src/format-date-range.ts:20-26 | "hh:mm AM/PM" becomes "hh" + ":mm" (omitted when the minute is 0) + "am"/"pm" |
| TimeText.RemoveLeadingZero | src/format-date-range.ts:28 | at most one leading '0' is removed, and the text is unchanged exactly when it is empty or does not start with '0' |
| TimeText.FormatTime | src/format-date-range.ts:30-39 | empty locale text gives "", and the result is never longer than the locale text |
| TimeText.TwelveHourLayout | src/format-date-range.ts:33-36 | a 12-hour rendering is eight characters: two-digit hour, ':', two-digit minute, a space and "AM" or "PM" |
| TimeText.FormatTwelveHour | src/format-date-range.ts:30-39 | a 12-hour rendering becomes the unpadded hour, ":mm" unless on the hour, and "am"/"pm" ("09:30 PM" gives "9:30pm", "09:00 AM" gives "9am") |
| TimeText.FormatTwentyFourHour | src/format-date-range.ts:30-39 | a 24-hour rendering only loses its leading zero; its ":00" stays |
| TimeText.FormatNarrowSpace | src/format-date-range.ts:30-39 | with U+202F before "AM" or "PM" nothing is compacted and only the leading zero goes |
| DateRange.DefaultOptions | src/format-date-range.ts:63-68 | the defaults are today = the clock, includeTime = true and separator "-" |
| DateRange.IsToday | src/format-date-range.ts:119 | `isToday`: the date's day is neither before nor after the clock's day |
| DateRange.IsTomorrow | src/format-date-range.ts:120 | `isTomorrow`: the date's day comes after the clock's day and is not today |
| DateRange.TomorrowIsNextDay | src/format-date-range.ts:120 | a valid day is tomorrow exactly when it comes after the clock's day with no valid day in between |
| DateRange.TodayIsNotTomorrow | src/format-date-range.ts:119-120 | a date on the clock's day is never also taken for tomorrow |
| DateRange.DateWithoutYear | src/format-date-range.ts:124-128 | "Today" exactly on the clock's day, "Tomorrow" exactly on the next day, otherwise `LLL d`: the month abbreviation, a space and the unpadded day, which reads back |
| DateRange.DateWithYear | src/format-date-range.ts:118-122 | as without a year, and otherwise `LLL d 'yy`: the abbreviation, the unpadded day, a space, an apostrophe and the two-digit year |
| DateRange.TimeOf | src/format-date-range.ts:41-44 | the time of a date is never longer than the locale text for its hour and minute |
| DateRange.TimePart | src/format-date-range.ts:136-138 | ", " + formatTime is present exactly when includeTime is set |
| DateRange.YearSuffix | src/format-date-range.ts:73-75 | the suffix is empty exactly when `from` is in the year of `today`, otherwise ", " and the year of `to`: exactly four digits below year 10000 and no leading zero above |
| DateRange.SpansYears | src/format-date-range.ts:90-93 | the whole-year test holds exactly when `from` is at 00:00 on 1 January and `to` at 23:59 on 31 December, of any years |
| DateRange.SpansQuarter | src/format-date-range.ts:98-102 | the whole-quarter test holds exactly when `from` is at 00:00 on the first day of a quarter and `to` at 23:59 on the last day of that quarter's last month |
| DateRange.SpansMonths | src/format-date-range.ts:107-110 | the whole-month test holds exactly when `from` is at 00:00 on the first of a month and `to` at 23:59 on the last day of its month |
| DateRange.RuleFor | src/format-date-range.ts:89-162 | each rule is picked exactly when its own test holds and no earlier test of the cascade does |
| DateRange.FormatDateRange | src/format-date-range.ts:60-163 | every output has at least four characters; the lemmas below give the text of each branch |
| DateRange.WholeYearWins | src/format-date-range.ts:89-95 | 00:00 on 1 January to 23:59 on 31 December gives only the four-digit year of `from`, even when `to` is in a later year |
| DateRange.WholeYearText | src/format-date-range.ts:94 | whenever the whole-year rule applies, the text is the year of `from` |
| DateRange.WholeQuarterRule | src/format-date-range.ts:97-102 | the quarter rule applies exactly when `from` starts a quarter, `to` ends one and the quarter numbers agree, with years not compared |
| DateRange.WholeQuarterText | src/format-date-range.ts:103 | the quarter text is "Q", the quarter digit, a space and the year of `from` |
| DateRange.WholeMonthsText | src/format-date-range.ts:106-117 | the month rule gives `LLLL yyyy` for one month of one year and `LLL sep LLL yyyy` (year of `to`) otherwise |
| DateRange.WholeMonthsRule | src/format-date-range.ts:106-110 | the month rule applies exactly when `from` starts a month and `to` ends one, unless they span January to December or one quarter |
| DateRange.SeveralWholeMonths | src/format-date-range.ts:115-116 | whole months that are not one month, a quarter or a year print as `LLL sep LLL yyyy` with the year of `to` |
| DateRange.WholeSingleMonth | src/format-date-range.ts:111-113 | one whole calendar month always prints as its full name and year |
| DateRange.PeriodTextIgnoresOptions | src/format-date-range.ts:89-117 | whole-period texts do not depend on the clock, on `today`, on the locale or on includeTime |
| DateRange.AcrossYearsText | src/format-date-range.ts:130-139 | across years: `from` without year, `to` with 'yy, each with ", time" exactly when includeTime is set, and no year suffix |
| DateRange.YearSuffixAtEnd | src/format-date-range.ts:143-162 | in the cross-month, same-day and different-day branches the text ends with the year suffix |
| DateRange.WithinDayText | src/format-date-range.ts:151-155 | on one day: one date text, then ", t1 sep t2" only when includeTime is set, then the suffix |
| DateRange.AcrossDaysText | src/format-date-range.ts:141-162 | different days of one year: both date texts without year, each optionally timed, around the separator, then the suffix |
| DateRange.RelativeDayFirst | src/format-date-range.ts:118-162 | outside the whole-period rules the text opens with "Today" exactly when `from` is on the clock's day, and with "Tomorrow" exactly when it is on the next day |
| DateRange.LabelOpens | src/format-date-range.ts:124-128 | a text opening with the date text of `d` opens with "Today" or "Tomorrow" exactly when `d` is on the clock's day or the next day |
| DateRange.DayTextOpens | src/format-date-range.ts:132-162 | outside the whole-period rules the text opens with the date text of `from` |
| DateRange.RuleToTheMinute | src/format-date-range.ts:89-117 | the rule depends on the dates only to the minute |
| DateRange.PartsToTheMinute | src/format-date-range.ts:118-128 | the date texts and times depend on a date only to the minute |
| DateRange.MinutePrecision | src/format-date-range.ts:60-163 | two ranges whose ends agree to the minute give the same text |
| RangeExamples.EnUsClock | src/format-date-range.ts:33-36 | en-US renders a time as the two-digit 12-hour hour, ':', the two-digit minute, a space and "AM" or "PM" |
| RangeExamples.Hour12 | src/format-date-range.ts:33-36 | the 12-hour dial shows 1 to 12 and agrees with the hour modulo 12 |
| RangeExamples.EnUsTime | src/format-date-range.ts:30-39 | in en-US, formatTime gives the unpadded 12-hour hour, ":mm" unless on the hour, and "am"/"pm" |
| RangeExamples.WholeYearExample | src/format-date-range.ts:89-95 | 2024-01-01 00:00 to 2024-12-31 23:59 gives "2024" |
| RangeExamples.WholeYearLaterEndExample | src/format-date-range.ts:89-95 | 2023-01-01 00:00 to 2024-12-31 23:59 gives "2023" |
| RangeExamples.QuarterAcrossYearsExample | src/format-date-range.ts:97-104 | 2023-01-01 00:00 to 2024-03-31 23:59 gives "Q1 2023" |
| RangeExamples.WholeMonthExample | src/format-date-range.ts:111-113 | March 2024, from its first to its last minute, gives "March 2024" |
| RangeExamples.TwoMonthsExample | src/format-date-range.ts:115-116 | 2024-01-01 00:00 to 2024-02-29 23:59 gives "Jan - Feb 2024" |
| RangeExamples.TodayExample | src/format-date-range.ts:151-155 | 8:00 to 9:00 on the clock's day gives "Today, 8am - 9am" |
| RangeExamples.TomorrowExample | src/format-date-range.ts:151-155 | 9:30 to 17:00 on the next day gives "Tomorrow, 9:30am - 5pm" |
| RangeExamples.AcrossYearsExample | src/format-date-range.ts:130-139 | 2023-12-31 10:00 to 2024-01-02 10:00 gives "Dec 31, 10am - Jan 2 '24, 10am" |
| RangeExamples.PastYearExample | src/format-date-range.ts:156-162 | 5 to 7 March 2024, seen from 2025 without times, gives "Mar 5 - Mar 7, 2024" |

## Left out

- `getNavigatorLanguage` (src/format-date-range.ts:46-51) reads `window.navigator`, which is environment I/O. The locale is represented only through `clockText`.
- `toLocaleTimeString` and its ICU locale data are foreign code, so the raw time text is the input `clockText`. The lemmas cover three shapes: 12-hour, 24-hour and U+202F before "AM" or "PM".
- `createFormatTime` (src/format-date-range.ts:41-44) only binds the locale. It is folded into `TimeOf`.
- The ambient clock (`new Date()` as the default `today`, and the clock of `isToday`/`isTomorrow`) is an explicit parameter. Time zones and daylight saving are not modelled: the fields are taken as already local.
- Invalid dates (`NaN` fields) are excluded by `Valid()`. So is the `text || ''` fallback for an undefined text, because a Dafny string is never undefined. The empty-text case is modelled.
- The unused inner `formatDate` / `formatDateWithTime` (src/format-date-range.ts:79-87) and their weekday format `EEE` are never called, so they are not modelled.
- The top-level `console.log` demo calls and the log comment (src/format-date-range.ts:165-173) are not part of the formatter.
- TimeText.ShortenAmPm: its own contract states only the empty case and a length bound. Its meaning is proved by lemmas:
  - ReplaceAllLeavesNo / MeridiemsCompacted: the first stage leaves no " AM"/" PM".
  - ShortenWithoutMarkers / ShortenLeavesPlainText: the ":00" deletion is skipped without an 'm'.
  - ShortenTwelveHour: the exact result on locale time shapes.

  No general "no ':00' is left" claim is made, because deleting ":00" can form a new ":00" (":0:000" becomes ":00").
- TimeText.FormatTime: its own contract states only the empty case and a length bound. The results for the locale shapes are in FormatTwelveHour, FormatTwentyFourHour, FormatNarrowSpace and RangeExamples.EnUsTime.
- DateRange.FormatDateRange: its own contract states only a length bound. The text of each branch is stated by the rule lemmas (WholeYearText, WholeQuarterText, WholeMonthsText, AcrossYearsText, WithinDayText, AcrossDaysText, YearSuffixAtEnd).
- Years at or before year 0 follow date-fns' era numbering for `yyyy`/`yy` (0 prints as 1, -1 as 2). Negative years are not otherwise treated specially.
