# utime: a verified model of the timezone-aware date/time helpers

`utime.py` keeps one process-wide active timezone, set by the `use_tz*`
setters. It offers helpers that turn Unix timestamps into zone-attached
datetimes and back, format and parse two fixed text forms, and compute the
start of the day, week and month that holds an instant, optionally moved by a
number of days or weeks.

This project models those helpers in Dafny, on whole seconds and fixed-offset
zones (a label and a signed offset from UTC in seconds), and proves what they do.

- `calendar.dfy`, module `Calendar`: proleptic Gregorian arithmetic. Leap years,
  month lengths, day numbers counted from 1970-01-01 in both directions
  (`DaysFromCivil`, `CivilFromDays`), the calendar successor of a date, and the
  weekday with Monday = 0 (1970-01-01 was a Thursday). The source gets this from
  Python's `datetime`.
- `text.dfy`, module `Text`: the `%Y-%m-%d` and `%Y-%m-%d %H:%M:%S` forms. There
  is a zero-padded serialiser and a strict parser. The parser returns `None`
  where `strptime` raises: the text does not match the format, or it names a day
  that does not exist, such as 2019-02-29.
- `utime.dfy`, module `Utime`: the functions of `utime.py`, and the class
  `TimezoneSetting` for the global `Timezone` and its setters.

Two offsets appear throughout. `tz` is the active zone. `host` is the UTC
offset of the machine's local time. `datetime_to_unix` calls
`time.mktime(dt.timetuple())`, so it reads `dt`'s wall clock in the host's zone
and ignores `dt`'s own zone. `str_to_datetime` and `day_str_to_daytime` do the
same through `mktime`. The model follows the code here. The contract of
`DateTimeToUnix` states the exact gap: the result is `Instant(dt) +
dt.zone.offset - host`. So epoch round trips are exact only when `host ==
tz.offset`, and the lemmas say so. If `datetime_to_unix` used the datetime's own
offset, the round trips would be exact on any host. The code does not do that,
and the model follows the code.

The active zone is an explicit parameter of every pure function. The setters
are methods of `TimezoneSetting`. Its constructor installs Shanghai, the initial
value of `Timezone`.

## Model

| member | source | states |
|---|---|---|
| Calendar.CivilFromDays | utime.py:46-47 | The date of any day number is a valid date, and its day number is the input. |
| Calendar.FindYear | utime.py:46-47 | The year search ends at the one year whose first day is at or before the day number and whose next year starts after it. |
| Calendar.FindMonth | utime.py:46-47 | The month search ends at the one month of the year that contains the day of the year. |
| Calendar.DaysFromCivil | utime.py:42-43 | The day number that `timetuple` and `mktime` count from 1970-01-01. Its meaning comes from the lemmas: `CivilFromDays` inverts it, `DaysFromCivilInjective` and `CivilFromDaysOfDate` make it a bijection, `EpochIsThursday` pins day 0, and `NextDayRollsOver` gives the calendar successor. |
| Calendar.DaysFromCivilInjective | utime.py:42-43 | Two valid dates with the same day number are the same date. |
| Calendar.CivilFromDaysOfDate | utime.py:42-47 | A valid date converted to its day number and back is unchanged. |
| Calendar.DaysBeforeNextYear | utime.py:46-47 | The closed-form count of days before a year grows by 366 after a leap year and by 365 otherwise. |
| Calendar.DaysBeforeYearMonotone | utime.py:46-47 | Every later year starts after an earlier year has ended. |
| Calendar.NextDayRollsOver | utime.py:83-86 | One day number later is the next calendar date: the next day, or the 1st of the next month, or 1 January of the next year. 29 February is covered in leap years. |
| Calendar.Weekday | utime.py:126 | The weekday lies in 0..6, with Monday = 0. |
| Calendar.WeekdayOfNextDate | utime.py:126 | The next date's weekday is one more, modulo 7. |
| Calendar.MondayOfWeek | utime.py:123-130 | Going back from a date by its weekday, in days, lands on a Monday. |
| Calendar.SameWeekdayWeeksApart | utime.py:133-136 | Dates a whole number of weeks apart have the same weekday. |
| Calendar.EpochIsThursday | utime.py:126 | 1970-01-01 is day 0 and a Thursday (weekday 3). |
| Calendar.LeapDay2020IsSaturday | utime.py:193-196 | 2020-02-29 exists and 2019-02-29 does not. 2020-02-29 is day 18321, a Saturday. |
| Text.NumeralValueOfNumeral | utime.py:89-94 | The value of the zero-padded numeral of width w for n is n, for every n < 10^w. |
| Text.NumeralOfNumeralValue | utime.py:97-103 | Any digit string is the zero-padded numeral of its own value at its own width. |
| Text.FormatDate | utime.py:89-90 | `strftime("%Y-%m-%d")` gives a 10-character text. `ParseFormatDate` and `FormatParseDate` make it the inverse of `ParseDate`. |
| Text.FormatLocal | utime.py:93-94 | `strftime("%Y-%m-%d %H:%M:%S")` gives a 19-character text that starts with the date text and a space. `ParseFormatLocal` and `FormatParseLocal` make it the inverse of `ParseLocal`. |
| Text.ParseDate | utime.py:107-108 | `strptime(s, "%Y-%m-%d")`, strict zero-padded form: an accepted text has 10 characters and gives a valid date in years 1 to 9999. `FormatParseDate` and `ParseFormatDate` state the round trips, and `RejectLeapDay2019` a refused day. `strptime` also accepts one-digit fields, such as "2020-2-9". |
| Text.ParseLocal | utime.py:97-103 | `strptime(s, "%Y-%m-%d %H:%M:%S")`, strict zero-padded form: an accepted text has 19 characters, its first 10 parse as the date, and it gives a valid wall clock. `FormatParseLocal` and `ParseFormatLocal` state the round trips. `strptime` also accepts one-digit fields, such as "2020-2-29 14:14:54". |
| Text.ParseFormatDate | utime.py:89-90 | Every in-range valid date, formatted as `%Y-%m-%d`, parses back to itself. |
| Text.FormatParseDate | utime.py:107-108 | For the strict zero-padded parser: when it accepts a text, it returns a valid in-range date whose formatting is that same text. `strptime` also accepts texts such as "2020-2-9", which format back as "2020-02-09". |
| Text.ParseFormatLocal | utime.py:93-94 | Every valid in-range wall clock, formatted as `%Y-%m-%d %H:%M:%S`, parses back to itself. |
| Text.FormatParseLocal | utime.py:97-103 | For the strict zero-padded parser: when it accepts a text, it returns a valid in-range wall clock whose formatting is that same text. `strptime` also accepts "2020-2-29 14:14:54", which formats back as "2020-02-29 14:14:54". |
| Text.FormatLeapDay2020 | utime.py:193 | 2020-02-29 14:14:54 formats as "2020-02-29 14:14:54". |
| Text.ParseLeapDay2020 | utime.py:193 | "2020-02-29 14:14:54" is accepted as that wall clock. |
| Text.RejectLeapDay2019 | utime.py:97-103 | "2019-02-29" and "2019-02-29 14:14:54" are rejected because no such day exists. |
| Text.RejectShortMonth | utime.py:97-103 | The strict zero-padded parser refuses a one-digit month. `strptime` accepts "2020-2-29 14:14:54", so this records where the model is stricter than the source. |
| Utime.LocalFromSeconds | utime.py:46-47 | The wall clock w seconds after 1970-01-01 00:00:00 is valid and lies exactly w seconds after that reading. |
| Utime.LocalFromSecondsOf | utime.py:42-47 | A valid wall clock converted to seconds and back is unchanged. |
| Utime.SameInstantSameZone | utime.py:62 | Two datetimes in the same zone are equal exactly when they denote the same instant. |
| Utime.Mktime | utime.py:43 | `mktime` returns the instant at which the host's clock shows the given reading. |
| Utime.DateTimeToUnix | utime.py:42-43 | The result is dt's true instant plus dt's offset minus the host offset. It equals the true instant exactly when dt's offset is the host's. |
| Utime.UnixToDateTime | utime.py:46-47 | The result is valid, carries the active zone, and denotes exactly the given instant. |
| Utime.AsTimeZone | utime.py:62 | The conversion keeps the instant and attaches the target zone. |
| Utime.AddSeconds | utime.py:85 | Adding a `timedelta` moves the wall clock and the instant by the same number of seconds and keeps the zone. |
| Utime.UnixRoundTrip | utime.py:42-47 | `datetime_to_unix(unix_to_datetime(u))` is `u + tz.offset - host`, so it is `u` when host and active offsets agree. |
| Utime.DateTimeRoundTrip | utime.py:42-47 | With equal host and active offsets, `unix_to_datetime(datetime_to_unix(dt))` has dt's wall clock in the active zone. It denotes dt's instant exactly when dt's offset is the host's. |
| Utime.DayStart | utime.py:58-68 | The result is midnight in the active zone, carries that zone, and has the date of dt seen in that zone. It is no later than dt and less than a day before it. |
| Utime.DayStartIdempotent | utime.py:58-68 | Applying `day_start` twice gives the same result as applying it once. |
| Utime.DayStartUnix | utime.py:71-72 | The result is the day start's instant shifted by the active-minus-host offset. |
| Utime.DayStartUnixRoundTrip | utime.py:71-72 | With equal offsets, a day-start timestamp fed back through `unix_to_datetime` and `day_start_unix` is unchanged. |
| Utime.DayStartOffset | utime.py:83-86 | The result is a midnight in the active zone whose day number is exactly n more than the day start's. Its instant is n·86400 seconds later. |
| Utime.DaysFromCivilOfLocalSeconds | utime.py:83-86 | A wall clock that lies a whole number k of days after the epoch reading is midnight of day k. |
| Utime.DayStartOffsetZero | utime.py:83-86 | An offset of 0 gives `day_start`. |
| Utime.DayStartOffsetNextDay | utime.py:83-86 | An offset of 1 gives midnight of the calendar's next date, across month, year and leap-day ends. |
| Utime.DateTimeToDayStr | utime.py:89-90 | The text is 10 characters long and parses back to dt's own date. |
| Utime.DateTimeToStr | utime.py:93-94 | The text is 19 characters long and begins with the day string. It parses back to dt's own wall clock. |
| Utime.StrToDateTime | utime.py:97-104 | With the strict zero-padded parser, the result is defined exactly when the text matches the format and names a real moment. `strptime` also accepts e.g. "2020-2-29 14:14:54", where the model gives no result. The datetime it gives carries the active zone and denotes the `mktime` instant of the parsed fields. |
| Utime.DayStrToDayTime | utime.py:107-109 | The same holds for `%Y-%m-%d` with the strict parser, with the time of day read as 00:00:00. `strptime` also accepts e.g. "2020-2-9", where the model gives no result. |
| Utime.StrRoundTrip | utime.py:93-104 | With equal offsets, `str_to_datetime(datetime_to_str(dt))` has dt's wall clock to the second, in the active zone. |
| Utime.StrToDateTimeThenFormat | utime.py:93-104 | With equal offsets and the strict zero-padded parser, an accepted text formats back to itself after parsing. This is not true of `strptime`, which accepts "2020-2-29 14:14:54" and formats the result back as "2020-02-29 14:14:54". |
| Utime.DayStrRoundTrip | utime.py:89-90 | With equal offsets, reading back a day string gives midnight of that date in the active zone. |
| Utime.DayStrIsDayStart | utime.py:107-109 | For a datetime already in the active offset, that midnight is its `day_start`. |
| Utime.WeekStartUnix | utime.py:123-130 | The result is at most 6 days before the day-start timestamp and never after it. It is a whole number of days before it. |
| Utime.WeekStart | utime.py:117-120 | The result carries the active zone and denotes exactly the `week_start_unix` instant. |
| Utime.WeekStartIsMonday | utime.py:117-130 | With equal offsets, `week_start` is a Monday at 00:00:00, weekday-many days before the day start. It is no later than dt and less than a week before it. |
| Utime.WeekStartIdempotent | utime.py:117-130 | With equal offsets, applying `week_start` twice gives the same result as applying it once. |
| Utime.WeekStartHostSkew | utime.py:117-130 | On any host, `week_start` is the true Monday midnight moved by `tz.offset - host` seconds. |
| Utime.WeekStartOffset | utime.py:133-136 | The result is the week start moved by exactly n·604800 seconds, both as a wall clock and as an instant, in the active zone. |
| Utime.WeekStartOffsetIsMonday | utime.py:133-136 | With equal offsets, the result is still a Monday midnight, exactly 7n days after the week start. |
| Utime.WeekStartOffsetUnix | utime.py:139-141 | The result is `week_start_unix + n·604800`, plus the active-minus-host offset. |
| Utime.MonthStart | utime.py:152-158 | The result keeps dt's year, month and own zone (not the active zone). It is day 1 at 00:00:00, and dt's wall clock falls within that month. |
| Utime.MonthStartIdempotent | utime.py:152-158 | Applying `month_start` twice gives the same result as applying it once. |
| Utime.MonthStartUnix | utime.py:161-162 | The result is the month start's instant shifted by dt's-offset-minus-host. |
| Utime.AddMonths | utime.py:167 | Adding `relativedelta(months=k)` moves the month index by k and clips the day to the target month's length. Time and zone are kept. |
| Utime.AddMonthsZero | utime.py:167 | Adding `relativedelta(months=0)` is the identity. |
| Utime.MonthStartOffset | utime.py:165-167 | As written, `month_start_offset(dt, n)` equals `month_start(dt)` for every n. |
| Utime.MonthStartOffsetUnix | utime.py:170-171 | As written, `month_start_offset_unix(dt, n)` equals `month_start_unix(dt)` for every n. |
| Utime.MonthStartShifted | utime.py:165-167 | The corrected offset: day 1 at midnight, in dt's zone, exactly n months after dt's month. |
| Utime.MonthStartShiftedInverse | utime.py:165-167 | A shift by n months followed by a shift by -n months returns to `month_start(dt)`. |
| Utime.MonthIndexInjective | utime.py:165-167 | Equal month indices mean the same year and month. |
| Utime.MonthStartOffsetFinding | utime.py:165-167 | For 2020-02-29, `month_start_offset(dt, 1)` gives February 1, while the corrected shift gives March 1. |
| Utime.LeapDayExample | utime.py:193-194 | In CST on a CST host, "2020-02-29 14:14:54" parses to 2020-02-29 14:14:54 +08:00. |
| Utime.WeekStartExample | utime.py:196-198 | The week of Saturday 2020-02-29 starts on Monday 2020-02-24. One week earlier is 2020-02-17. |
| Utime.MonthStartExample | utime.py:200-201 | `month_start` of 2020-02-29 is 2020-02-01, kept in the datetime's own zone. |
| Utime.TimezoneSetting.constructor | utime.py:11-12 | The initial active zone is Shanghai. |
| Utime.TimezoneSetting.UseTzIndia | utime.py:18-20 | Afterwards the active zone is IST, +19800. |
| Utime.TimezoneSetting.UseTzIndonesia | utime.py:23-25 | Afterwards the active zone is WIB, +25200. |
| Utime.TimezoneSetting.UseTzShanghai | utime.py:28-30 | Afterwards the active zone is Shanghai. |
| Utime.TimezoneSetting.UseTz | utime.py:33-35 | Afterwards the active zone is exactly the given zone. |

## Left out

- `now`, `now_unix`, `today`, `today_unix`, `week_cur_start` and `month_cur_start` are left out because they read the system clock. `now` reads it through `datetime.now` and `now_unix` through `time.time`. The other four apply a boundary function to `now()`.
- `Asia/Shanghai` is modelled as the fixed zone `CST`, +28800. The model cannot see the tz database, its historical offsets, or pytz's LMT behaviour. Every zone here is a fixed offset.
- The host zone is modelled as one fixed offset. `mktime` on a host with daylight saving, and the `tm_isdst` flag, are not modelled.
- Microseconds and the float-then-`int()` truncation of `mktime` and `time.time` are left out. The model works in whole seconds.
- `format_str_to_datetime` is left out because it takes an arbitrary caller-supplied format.
- `Text.ParseLocal`, `Text.ParseDate`: `strptime` also accepts one-digit month, day, hour, minute and second fields, a day padded with a space, decimal digits outside ASCII, seconds 60 and 61, and runs of whitespace where the format has a space. The model's parser accepts only the zero-padded ASCII form.
- `Text.FormatParseDate`: holds only for the strict parser. `strptime` accepts "2020-2-9", which formats back as "2020-02-09".
- `Text.FormatParseLocal`: holds only for the strict parser. `strptime` accepts "2020-2-29 14:14:54", which formats back as "2020-02-29 14:14:54".
- `Text.RejectShortMonth`: states the strict parser's refusal of a one-digit month. `strptime` accepts that text, so the source does not refuse it.
- `Utime.StrToDateTime`: gives no result on texts that only the lenient `strptime` accepts, such as "2020-2-29 14:14:54". The source returns a datetime for them.
- `Utime.DayStrToDayTime`: gives no result on texts that only the lenient `strptime` accepts, such as "2020-2-9". The source returns a datetime for them.
- `Utime.StrToDateTimeThenFormat`: holds only for the strict parser. With `strptime`, "2020-2-29 14:14:54" is accepted and formats back padded.
- `Text.FormatDate`, `Text.FormatLocal`: the year is always padded to four digits. Some C libraries print years below 1000 without padding, and that is not modelled.
- `Utime.UnixToDateTime`, `Utime.LocalFromSeconds`, `Utime.AsTimeZone`, `Utime.DayStart`, `Utime.AddSeconds`, `Utime.DayStartOffset`, `Utime.WeekStartOffset`, `Utime.AddMonths`, `Utime.MonthStartShifted`: years are unbounded. Python raises `OverflowError` or `ValueError` outside years 1 to 9999, in `fromtimestamp`, `astimezone`, `timedelta` addition and `relativedelta` addition; the model does not. The formatter requires years 1 to 9999, the range a Python datetime can hold.
- Naive datetimes, which carry no zone, are not modelled. `astimezone` would read them in the host zone. Every datetime here carries a zone.
- Zone offsets are not limited to under 24 hours, a limit Python enforces when the offset is used.
- The `__main__` block is I/O. It is used only as a source of the worked examples.
- Unsynchronised changes to the global zone from several threads are concurrency and out of scope.
- `common_parse`, the quarter helpers (`season_*`), `unix_to_str`, `tomorrow`, `yesterday` and `use_tz_offset` belong to another revision of the module, which is not part of this model.

## Findings

| source | as written | input that shows it | evidently intended | confidence | as-written member | corrected member |
|---|---|---|---|---|---|---|
| utime.py:165-167 | `month_start(dt) + relativedelta(months=0)`, so `offset` is never used | `month_start_offset(2020-02-29 14:14:54, 1)` gives 2020-02-01 | `relativedelta(months=offset)`, giving 2020-03-01 | high; not executed | Utime.MonthStartOffset | Utime.MonthStartShifted |

`Utime.MonthStartOffset` and `Utime.MonthStartOffsetUnix` keep the source's
behaviour, because other code may depend on it. `Utime.MonthStartShifted` is the
corrected definition. `Utime.MonthStartShiftedInverse` and
`Utime.MonthStartOffsetFinding` prove its properties.
