/**
 * The timezone-aware date/time helpers of `utime.py`, on whole seconds and
 * fixed-offset zones.
 *
 * Two offsets are in play. The active zone (`tz` below, the module-global
 * `Timezone` of the source) is the zone in which instants are presented and
 * day boundaries drawn. The host offset (`host`) is the UTC offset of the
 * machine's local time, which `time.mktime` uses to read a wall clock back
 * into epoch seconds, whatever zone the datetime itself carries.
 */
module Utime {
  import opened Calendar
  import opened Text

  /** A fixed-offset zone: a label and a signed offset from UTC in seconds. */
  datatype Zone = Zone(name: string, offset: int)

  /** `Asia/Shanghai`, which today is a fixed UTC+8 (see README on the tz database). */
  const TZ_SHANGHAI: Zone := Zone("CST", 28800)
  const TZ_INDIA: Zone := Zone("IST", 19800)
  const TZ_INDONESIA: Zone := Zone("WIB", 25200)

  const SECONDS_PER_DAY: int := 86400
  const SECONDS_PER_WEEK: int := 604800

  /** A zone-attached datetime: a wall-clock reading and the zone it is read in. */
  datatype DateTime = DateTime(local: LocalTime, zone: Zone)

  predicate Valid(dt: DateTime) {
    ValidLocal(dt.local)
  }

  /** Seconds since the wall clock read 1970-01-01 00:00:00. */
  function LocalSeconds(t: LocalTime): int
    requires ValidLocal(t)
  {
    DaysFromCivil(t.date) * SECONDS_PER_DAY + t.hour * 3600 + t.minute * 60 + t.second
  }

  /** The wall-clock reading that lies w seconds after 1970-01-01 00:00:00. */
  function LocalFromSeconds(w: int): (t: LocalTime)
    ensures ValidLocal(t)
    ensures LocalSeconds(t) == w
  {
    var days := w / SECONDS_PER_DAY;
    var sod := w % SECONDS_PER_DAY;
    assert sod == sod / 3600 * 3600 + sod % 3600 / 60 * 60 + sod % 3600 % 60;
    LocalTime(CivilFromDays(days), sod / 3600, sod % 3600 / 60, sod % 3600 % 60)
  }

  lemma LocalFromSecondsOf(t: LocalTime)
    requires ValidLocal(t)
    ensures LocalFromSeconds(LocalSeconds(t)) == t
  {
    var w := LocalSeconds(t);
    var sod := t.hour * 3600 + t.minute * 60 + t.second;
    assert 0 <= sod < SECONDS_PER_DAY;
    assert w / SECONDS_PER_DAY == DaysFromCivil(t.date) && w % SECONDS_PER_DAY == sod;
    assert sod / 3600 == t.hour && sod % 3600 == t.minute * 60 + t.second;
    assert (t.minute * 60 + t.second) / 60 == t.minute && (t.minute * 60 + t.second) % 60 == t.second;
    CivilFromDaysOfDate(t.date);
  }

  /** Two wall-clock readings the same number of seconds after the epoch reading are equal. */
  lemma LocalSecondsInjective(s: LocalTime, t: LocalTime)
    requires ValidLocal(s) && ValidLocal(t)
    requires LocalSeconds(s) == LocalSeconds(t)
    ensures s == t
  {
    LocalFromSecondsOf(s);
    LocalFromSecondsOf(t);
  }

  /** The instant, in true epoch seconds, that an aware datetime denotes through its own zone. */
  function Instant(dt: DateTime): int
    requires Valid(dt)
  {
    LocalSeconds(dt.local) - dt.zone.offset
  }

  /** Datetimes in the same zone are equal exactly when they denote the same instant. */
  lemma SameInstantSameZone(a: DateTime, b: DateTime)
    requires Valid(a) && Valid(b) && a.zone == b.zone
    ensures a == b <==> Instant(a) == Instant(b)
  {
    if Instant(a) == Instant(b) {
      LocalSecondsInjective(a.local, b.local);
    }
  }

  /**
   * `time.mktime(t)` on a host whose local time is UTC plus `host` seconds:
   * the instant at which the host's clock shows the reading t.
   */
  function Mktime(t: LocalTime, host: int): (u: int)
    requires ValidLocal(t)
    ensures LocalFromSeconds(u + host) == t
  {
    LocalFromSecondsOf(t);
    LocalSeconds(t) - host
  }

  /** `datetime_to_unix`: `mktime(dt.timetuple())`, which reads dt's wall clock in the host zone. */
  function DateTimeToUnix(dt: DateTime, host: int): (u: int)
    requires Valid(dt)
    ensures u == Instant(dt) + dt.zone.offset - host
    ensures u == Instant(dt) <==> dt.zone.offset == host
  {
    Mktime(dt.local, host)
  }

  /** `unix_to_datetime` (`fromtimestamp(u, tz=Timezone)`): instant u presented in zone tz. */
  function UnixToDateTime(u: int, tz: Zone): (r: DateTime)
    ensures Valid(r) && r.zone == tz
    ensures Instant(r) == u
  {
    DateTime(LocalFromSeconds(u + tz.offset), tz)
  }

  /** `dt.astimezone(tz)`: the same instant presented in zone tz. */
  function AsTimeZone(dt: DateTime, tz: Zone): (r: DateTime)
    requires Valid(dt)
    ensures Valid(r) && r.zone == tz
    ensures Instant(r) == Instant(dt)
  {
    UnixToDateTime(Instant(dt), tz)
  }

  /** `dt + timedelta(seconds=s)`: wall-clock addition that keeps the attached zone. */
  function AddSeconds(dt: DateTime, s: int): (r: DateTime)
    requires Valid(dt)
    ensures Valid(r) && r.zone == dt.zone
    ensures LocalSeconds(r.local) == LocalSeconds(dt.local) + s
    ensures Instant(r) == Instant(dt) + s
  {
    DateTime(LocalFromSeconds(LocalSeconds(dt.local) + s), dt.zone)
  }

  /** Epoch seconds to a datetime and back: off by exactly the zone mismatch, exact when they agree. */
  lemma UnixRoundTrip(u: int, tz: Zone, host: int)
    ensures DateTimeToUnix(UnixToDateTime(u, tz), host) == u + tz.offset - host
    ensures host == tz.offset ==> DateTimeToUnix(UnixToDateTime(u, tz), host) == u
  {
  }

  /**
   * A datetime to epoch seconds and back: the wall clock comes back unchanged when the
   * host and active offsets agree, and the instant is kept only when dt's own offset is the host's.
   */
  lemma DateTimeRoundTrip(dt: DateTime, tz: Zone, host: int)
    requires Valid(dt)
    ensures host == tz.offset ==> UnixToDateTime(DateTimeToUnix(dt, host), tz) == DateTime(dt.local, tz)
    ensures Instant(UnixToDateTime(DateTimeToUnix(dt, host), tz)) == Instant(dt) <==> dt.zone.offset == host
  {
    if host == tz.offset {
      SameInstantSameZone(UnixToDateTime(DateTimeToUnix(dt, host), tz), DateTime(dt.local, tz));
    }
  }

  // ---------------------------------------------------------------------------
  // Days

  predicate IsMidnight(dt: DateTime) {
    dt.local.hour == 0 && dt.local.minute == 0 && dt.local.second == 0
  }

  /** `day_start`: the start of the active-zone day that contains the instant of dt. */
  function DayStart(dt: DateTime, tz: Zone): (r: DateTime)
    requires Valid(dt)
    ensures Valid(r) && r.zone == tz && IsMidnight(r)
    ensures r.local.date == AsTimeZone(dt, tz).local.date
    ensures Instant(r) <= Instant(dt) < Instant(r) + SECONDS_PER_DAY
  {
    var local := AsTimeZone(dt, tz);
    DateTime(LocalTime(local.local.date, 0, 0, 0), local.zone)
  }

  lemma DayStartIdempotent(dt: DateTime, tz: Zone)
    requires Valid(dt)
    ensures DayStart(DayStart(dt, tz), tz) == DayStart(dt, tz)
  {
    var ds := DayStart(dt, tz);
    SameInstantSameZone(AsTimeZone(ds, tz), ds);
  }

  /** `day_start_unix`. */
  function DayStartUnix(dt: DateTime, tz: Zone, host: int): (u: int)
    requires Valid(dt)
    ensures u == Instant(DayStart(dt, tz)) + tz.offset - host
  {
    DateTimeToUnix(DayStart(dt, tz), host)
  }

  /** Feeding a day-start timestamp back in gives the same timestamp when host and active zone agree. */
  lemma DayStartUnixRoundTrip(dt: DateTime, tz: Zone, host: int)
    requires Valid(dt) && host == tz.offset
    ensures DayStartUnix(UnixToDateTime(DayStartUnix(dt, tz, host), tz), tz, host) == DayStartUnix(dt, tz, host)
  {
    var ds := DayStart(dt, tz);
    SameInstantSameZone(UnixToDateTime(DayStartUnix(dt, tz, host), tz), ds);
    DayStartIdempotent(dt, tz);
  }

  /** `day_start_offset`: the day start moved by n whole civil days. */
  function DayStartOffset(dt: DateTime, n: int, tz: Zone): (r: DateTime)
    requires Valid(dt)
    ensures Valid(r) && r.zone == tz && IsMidnight(r)
    ensures DaysFromCivil(r.local.date) == DaysFromCivil(DayStart(dt, tz).local.date) + n
    ensures Instant(r) == Instant(DayStart(dt, tz)) + n * SECONDS_PER_DAY
  {
    var r := AddSeconds(DayStart(dt, tz), n * SECONDS_PER_DAY);
    assert r.local.hour * 3600 + r.local.minute * 60 + r.local.second == 0 by {
      DaysFromCivilOfLocalSeconds(r.local, DaysFromCivil(DayStart(dt, tz).local.date) + n);
    }
    r
  }

  /** A wall clock that is a whole number k of days after the epoch reading is midnight of day k. */
  lemma DaysFromCivilOfLocalSeconds(t: LocalTime, k: int)
    requires ValidLocal(t) && LocalSeconds(t) == k * SECONDS_PER_DAY
    ensures DaysFromCivil(t.date) == k
    ensures t.hour * 3600 + t.minute * 60 + t.second == 0
  {
    var sod := t.hour * 3600 + t.minute * 60 + t.second;
    assert 0 <= sod < SECONDS_PER_DAY;
    var d := DaysFromCivil(t.date);
    assert (d - k) * SECONDS_PER_DAY + sod == 0;
  }

  lemma DayStartOffsetZero(dt: DateTime, tz: Zone)
    requires Valid(dt)
    ensures DayStartOffset(dt, 0, tz) == DayStart(dt, tz)
  {
    SameInstantSameZone(DayStartOffset(dt, 0, tz), DayStart(dt, tz));
  }

  /** One day on is midnight of the calendar's next date, across month, year and leap-day ends. */
  lemma DayStartOffsetNextDay(dt: DateTime, tz: Zone)
    requires Valid(dt)
    ensures DayStartOffset(dt, 1, tz).local.date == NextDate(DayStart(dt, tz).local.date)
  {
    var d := DayStart(dt, tz).local.date;
    NextDayRollsOver(d);
    CivilFromDaysOfDate(DayStartOffset(dt, 1, tz).local.date);
  }

  // ---------------------------------------------------------------------------
  // Text

  /** `datetime_to_day_str`: `strftime("%Y-%m-%d")` of dt's own wall clock. */
  function DateTimeToDayStr(dt: DateTime): (s: string)
    requires Valid(dt) && InYearRange(dt.local.date)
    ensures |s| == 10
    ensures ParseDate(s) == Some(dt.local.date)
  {
    ParseFormatDate(dt.local.date);
    FormatDate(dt.local.date)
  }

  /** `datetime_to_str`: `strftime("%Y-%m-%d %H:%M:%S")` of dt's own wall clock. */
  function DateTimeToStr(dt: DateTime): (s: string)
    requires Valid(dt) && InYearRange(dt.local.date)
    ensures |s| == 19
    ensures s[..10] == DateTimeToDayStr(dt)
    ensures ParseLocal(s) == Some(dt.local)
  {
    ParseFormatLocal(dt.local);
    FormatLocal(dt.local)
  }

  /**
   * `str_to_datetime`: parse `%Y-%m-%d %H:%M:%S`, read the fields as host local time
   * (`mktime`), present that instant in the active zone; None where strptime raises.
   */
  function StrToDateTime(s: string, tz: Zone, host: int): (r: Option<DateTime>)
    ensures r.Some? <==> ParseLocal(s).Some?
    ensures r.Some? ==>
      Valid(r.value) && r.value.zone == tz && Instant(r.value) == Mktime(ParseLocal(s).value, host)
  {
    match ParseLocal(s)
    case None => None
    case Some(t) => Some(UnixToDateTime(Mktime(t, host), tz))
  }

  /** `day_str_to_daytime`: the same for `%Y-%m-%d`, the time of day read as 00:00:00. */
  function DayStrToDayTime(s: string, tz: Zone, host: int): (r: Option<DateTime>)
    ensures r.Some? <==> ParseDate(s).Some?
    ensures r.Some? ==>
      Valid(r.value) && r.value.zone == tz && Instant(r.value) == Mktime(LocalTime(ParseDate(s).value, 0, 0, 0), host)
  {
    match ParseDate(s)
    case None => None
    case Some(d) => Some(UnixToDateTime(Mktime(LocalTime(d, 0, 0, 0), host), tz))
  }

  /** Formatting then parsing reproduces the wall clock to the second when host and active zone agree. */
  lemma StrRoundTrip(dt: DateTime, tz: Zone, host: int)
    requires Valid(dt) && InYearRange(dt.local.date) && host == tz.offset
    ensures StrToDateTime(DateTimeToStr(dt), tz, host) == Some(DateTime(dt.local, tz))
  {
    SameInstantSameZone(StrToDateTime(DateTimeToStr(dt), tz, host).value, DateTime(dt.local, tz));
  }

  /** Parsing then formatting gives back the text, when host and active zone agree. */
  lemma StrToDateTimeThenFormat(s: string, tz: Zone, host: int)
    requires host == tz.offset && StrToDateTime(s, tz, host).Some?
    ensures InYearRange(StrToDateTime(s, tz, host).value.local.date)
    ensures DateTimeToStr(StrToDateTime(s, tz, host).value) == s
  {
    var t := ParseLocal(s).value;
    FormatParseLocal(s);
    SameInstantSameZone(StrToDateTime(s, tz, host).value, DateTime(t, tz));
  }

  /** A day string read back is midnight of that day in the active zone, when host and active zone agree. */
  lemma DayStrRoundTrip(dt: DateTime, tz: Zone, host: int)
    requires Valid(dt) && InYearRange(dt.local.date) && host == tz.offset
    ensures DayStrToDayTime(DateTimeToDayStr(dt), tz, host) == Some(DateTime(LocalTime(dt.local.date, 0, 0, 0), tz))
  {
    var m := DateTime(LocalTime(dt.local.date, 0, 0, 0), tz);
    var r := DayStrToDayTime(DateTimeToDayStr(dt), tz, host);
    assert r.Some? && Instant(r.value) == Instant(m);
    SameInstantSameZone(r.value, m);
  }

  /** For a datetime already in the active offset, that midnight is its `day_start`. */
  lemma DayStrIsDayStart(dt: DateTime, tz: Zone, host: int)
    requires Valid(dt) && InYearRange(dt.local.date) && host == tz.offset && dt.zone.offset == tz.offset
    ensures DayStrToDayTime(DateTimeToDayStr(dt), tz, host) == Some(DayStart(dt, tz))
  {
    DayStrRoundTrip(dt, tz, host);
    SameInstantSameZone(AsTimeZone(dt, tz), DateTime(dt.local, tz));
  }

  // ---------------------------------------------------------------------------
  // Weeks

  /** `week_start_unix`: the day-start timestamp moved back by the day start's weekday, in days. */
  function WeekStartUnix(dt: DateTime, tz: Zone, host: int): (u: int)
    requires Valid(dt)
    ensures u <= DayStartUnix(dt, tz, host) <= u + 6 * SECONDS_PER_DAY
    ensures (DayStartUnix(dt, tz, host) - u) % SECONDS_PER_DAY == 0
  {
    var day := DayStart(dt, tz);
    var w := Weekday(day.local.date);
    assert (w * SECONDS_PER_DAY) % SECONDS_PER_DAY == 0 by {
      MultipleOfDay(w);
    }
    DateTimeToUnix(day, host) - w * SECONDS_PER_DAY
  }

  lemma MultipleOfDay(k: int)
    ensures (k * SECONDS_PER_DAY) % SECONDS_PER_DAY == 0
  {
  }

  /** `week_start`: the week-start timestamp presented in the active zone. */
  function WeekStart(dt: DateTime, tz: Zone, host: int): (r: DateTime)
    requires Valid(dt)
    ensures Valid(r) && r.zone == tz
    ensures Instant(r) == WeekStartUnix(dt, tz, host)
  {
    UnixToDateTime(WeekStartUnix(dt, tz, host), tz)
  }

  /**
   * With host and active offsets equal, `week_start` is the Monday 00:00:00 of the week that
   * contains dt in the active zone: no later than dt, less than a week before it.
   */
  lemma WeekStartIsMonday(dt: DateTime, tz: Zone, host: int)
    requires Valid(dt) && host == tz.offset
    ensures IsMidnight(WeekStart(dt, tz, host))
    ensures Weekday(WeekStart(dt, tz, host).local.date) == 0
    ensures DaysFromCivil(WeekStart(dt, tz, host).local.date)
      == DaysFromCivil(DayStart(dt, tz).local.date) - Weekday(DayStart(dt, tz).local.date)
    ensures Instant(WeekStart(dt, tz, host)) <= Instant(dt) < Instant(WeekStart(dt, tz, host)) + SECONDS_PER_WEEK
  {
    var ds := DayStart(dt, tz);
    var z := DaysFromCivil(ds.local.date);
    var w := Weekday(ds.local.date);
    var r := WeekStart(dt, tz, host);
    assert LocalSeconds(ds.local) == z * SECONDS_PER_DAY;
    assert Instant(r) == Instant(ds) - w * SECONDS_PER_DAY;
    assert LocalSeconds(r.local) == (z - w) * SECONDS_PER_DAY;
    DaysFromCivilOfLocalSeconds(r.local, z - w);
    assert IsMidnight(r);
    MondayOfWeek(ds.local.date, r.local.date);
    assert Instant(r) <= Instant(ds) <= Instant(dt);
    assert Instant(dt) < Instant(ds) + SECONDS_PER_DAY <= Instant(r) + SECONDS_PER_WEEK;
  }

  lemma WeekStartIdempotent(dt: DateTime, tz: Zone, host: int)
    requires Valid(dt) && host == tz.offset
    ensures WeekStart(WeekStart(dt, tz, host), tz, host) == WeekStart(dt, tz, host)
  {
    var w := WeekStart(dt, tz, host);
    WeekStartIsMonday(dt, tz, host);
    SameInstantSameZone(AsTimeZone(w, tz), w);
    assert DayStart(w, tz) == w;
    SameInstantSameZone(WeekStart(w, tz, host), w);
  }

  /**
   * On any host, `week_start` is the true Monday midnight moved by the offset mismatch:
   * tz.offset - host seconds later than the start of the week.
   */
  lemma WeekStartHostSkew(dt: DateTime, tz: Zone, host: int)
    requires Valid(dt)
    ensures WeekStart(dt, tz, host) == AddSeconds(WeekStart(dt, tz, tz.offset), tz.offset - host)
  {
    SameInstantSameZone(WeekStart(dt, tz, host), AddSeconds(WeekStart(dt, tz, tz.offset), tz.offset - host));
  }

  /** `week_start_offset`: the week start moved by n whole weeks. */
  function WeekStartOffset(dt: DateTime, n: int, tz: Zone, host: int): (r: DateTime)
    requires Valid(dt)
    ensures Valid(r) && r.zone == tz
    ensures Instant(r) == Instant(WeekStart(dt, tz, host)) + n * SECONDS_PER_WEEK
    ensures LocalSeconds(r.local) == LocalSeconds(WeekStart(dt, tz, host).local) + n * SECONDS_PER_WEEK
  {
    AddSeconds(WeekStart(dt, tz, host), n * SECONDS_PER_WEEK)
  }

  /** With host and active offsets equal, `week_start_offset` is the Monday midnight 7n days on. */
  lemma WeekStartOffsetIsMonday(dt: DateTime, n: int, tz: Zone, host: int)
    requires Valid(dt) && host == tz.offset
    ensures IsMidnight(WeekStartOffset(dt, n, tz, host))
    ensures Weekday(WeekStartOffset(dt, n, tz, host).local.date) == 0
    ensures DaysFromCivil(WeekStartOffset(dt, n, tz, host).local.date)
      == DaysFromCivil(WeekStart(dt, tz, host).local.date) + 7 * n
  {
    var w := WeekStart(dt, tz, host);
    var r := WeekStartOffset(dt, n, tz, host);
    WeekStartIsMonday(dt, tz, host);
    var k := DaysFromCivil(w.local.date) + 7 * n;
    assert LocalSeconds(r.local) == k * SECONDS_PER_DAY;
    DaysFromCivilOfLocalSeconds(r.local, k);
    SameWeekdayWeeksApart(w.local.date, r.local.date, n);
  }

  /** `week_start_offset_unix`: n weeks after the week-start timestamp, plus the offset mismatch. */
  function WeekStartOffsetUnix(dt: DateTime, n: int, tz: Zone, host: int): (u: int)
    requires Valid(dt)
    ensures u == WeekStartUnix(dt, tz, host) + n * SECONDS_PER_WEEK + tz.offset - host
  {
    DateTimeToUnix(WeekStartOffset(dt, n, tz, host), host)
  }

  // ---------------------------------------------------------------------------
  // Months

  /** Months counted from January of year 0. */
  function MonthIndex(d: Date): int {
    12 * d.year + d.month - 1
  }

  /** `month_start`: day 1 of dt's own month at 00:00:00, keeping dt's own zone (not the active one). */
  function MonthStart(dt: DateTime): (r: DateTime)
    requires Valid(dt)
    ensures Valid(r) && r.zone == dt.zone && IsMidnight(r)
    ensures r.local.date.year == dt.local.date.year && r.local.date.month == dt.local.date.month
    ensures r.local.date.day == 1
    ensures LocalSeconds(r.local) <= LocalSeconds(dt.local)
      < LocalSeconds(r.local) + DaysInMonth(dt.local.date.year, dt.local.date.month) * SECONDS_PER_DAY
  {
    DateTime(LocalTime(Date(dt.local.date.year, dt.local.date.month, 1), 0, 0, 0), dt.zone)
  }

  lemma MonthStartIdempotent(dt: DateTime)
    requires Valid(dt)
    ensures MonthStart(MonthStart(dt)) == MonthStart(dt)
  {
  }

  /** `month_start_unix`. */
  function MonthStartUnix(dt: DateTime, host: int): (u: int)
    requires Valid(dt)
    ensures u == Instant(MonthStart(dt)) + dt.zone.offset - host
  {
    DateTimeToUnix(MonthStart(dt), host)
  }

  /**
   * `dt + relativedelta(months=k)`: the same day k months on, clipped to the length of the
   * target month; time of day and zone kept.
   */
  function AddMonths(dt: DateTime, k: int): (r: DateTime)
    requires Valid(dt)
    ensures Valid(r) && r.zone == dt.zone
    ensures MonthIndex(r.local.date) == MonthIndex(dt.local.date) + k
    ensures r.local.date.day == if dt.local.date.day <= DaysInMonth(r.local.date.year, r.local.date.month)
      then dt.local.date.day else DaysInMonth(r.local.date.year, r.local.date.month)
    ensures r.local.hour == dt.local.hour && r.local.minute == dt.local.minute && r.local.second == dt.local.second
  {
    var total := MonthIndex(dt.local.date) + k;
    var y, m := total / 12, total % 12 + 1;
    var last := DaysInMonth(y, m);
    var d := if dt.local.date.day <= last then dt.local.date.day else last;
    DateTime(LocalTime(Date(y, m, d), dt.local.hour, dt.local.minute, dt.local.second), dt.zone)
  }

  lemma AddMonthsZero(dt: DateTime)
    requires Valid(dt)
    ensures AddMonths(dt, 0) == dt
  {
    var d := dt.local.date;
    assert (12 * d.year + d.month - 1) / 12 == d.year;
  }

  /** `month_start_offset` as written: it adds `relativedelta(months=0)`, so n is never used. */
  function MonthStartOffset(dt: DateTime, n: int): (r: DateTime)
    requires Valid(dt)
    ensures r == MonthStart(dt)
  {
    AddMonthsZero(MonthStart(dt));
    AddMonths(MonthStart(dt), 0)
  }

  /** `month_start_offset_unix`: likewise independent of n. */
  function MonthStartOffsetUnix(dt: DateTime, n: int, host: int): (u: int)
    requires Valid(dt)
    ensures u == MonthStartUnix(dt, host)
  {
    DateTimeToUnix(MonthStartOffset(dt, n), host)
  }

  /** The month start moved by n calendar months: what `month_start_offset` evidently intends. */
  function MonthStartShifted(dt: DateTime, n: int): (r: DateTime)
    requires Valid(dt)
    ensures Valid(r) && r.zone == dt.zone && IsMidnight(r) && r.local.date.day == 1
    ensures MonthIndex(r.local.date) == MonthIndex(dt.local.date) + n
  {
    AddMonths(MonthStart(dt), n)
  }

  /** Moving n months and then -n months returns to the month start. */
  lemma MonthStartShiftedInverse(dt: DateTime, n: int)
    requires Valid(dt)
    ensures MonthStartShifted(MonthStartShifted(dt, n), -n) == MonthStart(dt)
  {
    var r := MonthStartShifted(MonthStartShifted(dt, n), -n);
    MonthIndexInjective(r.local.date, dt.local.date);
  }

  lemma MonthIndexInjective(a: Date, b: Date)
    requires 1 <= a.month <= 12 && 1 <= b.month <= 12
    requires MonthIndex(a) == MonthIndex(b)
    ensures a.year == b.year && a.month == b.month
  {
  }

  // ---------------------------------------------------------------------------
  // Worked examples from the module's own `__main__` block, active zone CST on a CST host

  lemma LeapDayExample()
    ensures StrToDateTime("2020-02-29 14:14:54", TZ_SHANGHAI, 28800)
      == Some(DateTime(LocalTime(Date(2020, 2, 29), 14, 14, 54), TZ_SHANGHAI))
  {
    ParseLeapDay2020();
    var t := LocalTime(Date(2020, 2, 29), 14, 14, 54);
    SameInstantSameZone(StrToDateTime("2020-02-29 14:14:54", TZ_SHANGHAI, 28800).value, DateTime(t, TZ_SHANGHAI));
  }

  /** Saturday 2020-02-29 belongs to the week of Monday 2020-02-24; one week back is 2020-02-17. */
  lemma WeekStartExample()
    ensures WeekStart(DateTime(LocalTime(Date(2020, 2, 29), 14, 14, 54), TZ_SHANGHAI), TZ_SHANGHAI, 28800)
      == DateTime(LocalTime(Date(2020, 2, 24), 0, 0, 0), TZ_SHANGHAI)
    ensures WeekStartOffset(DateTime(LocalTime(Date(2020, 2, 29), 14, 14, 54), TZ_SHANGHAI), -1, TZ_SHANGHAI, 28800)
      == DateTime(LocalTime(Date(2020, 2, 17), 0, 0, 0), TZ_SHANGHAI)
  {
    var dt := DateTime(LocalTime(Date(2020, 2, 29), 14, 14, 54), TZ_SHANGHAI);
    SameInstantSameZone(AsTimeZone(dt, TZ_SHANGHAI), dt);
    LeapDay2020IsSaturday();
    var w := WeekStart(dt, TZ_SHANGHAI, 28800);
    WeekStartIsMonday(dt, TZ_SHANGHAI, 28800);
    DaysFromCivilInjective(w.local.date, Date(2020, 2, 24));
    var p := WeekStartOffset(dt, -1, TZ_SHANGHAI, 28800);
    WeekStartOffsetIsMonday(dt, -1, TZ_SHANGHAI, 28800);
    DaysFromCivilInjective(p.local.date, Date(2020, 2, 17));
  }

  /** `month_start` of 2020-02-29 is 2020-02-01, in the datetime's own zone. */
  lemma MonthStartExample()
    ensures MonthStart(DateTime(LocalTime(Date(2020, 2, 29), 14, 14, 54), TZ_INDIA))
      == DateTime(LocalTime(Date(2020, 2, 1), 0, 0, 0), TZ_INDIA)
  {
  }

  /** `month_start_offset(dt, 1)` stays in February, where one month on is March. */
  lemma MonthStartOffsetFinding()
    ensures MonthStartOffset(DateTime(LocalTime(Date(2020, 2, 29), 14, 14, 54), TZ_SHANGHAI), 1).local.date
      == Date(2020, 2, 1)
    ensures MonthStartShifted(DateTime(LocalTime(Date(2020, 2, 29), 14, 14, 54), TZ_SHANGHAI), 1).local.date
      == Date(2020, 3, 1)
  {
  }

  // ---------------------------------------------------------------------------
  // The active zone

  /**
   * The module-global `Timezone` and its setters. Every function above takes
   * the active zone as its parameter `tz`; a caller passes the `timezone` field
   * of this object, as the source's functions read the global at each call.
   */
  class TimezoneSetting {
    var timezone: Zone

    constructor ()
      ensures timezone == TZ_SHANGHAI
    {
      timezone := TZ_SHANGHAI;
    }

    method UseTzIndia()
      modifies this
      ensures timezone == TZ_INDIA
    {
      timezone := TZ_INDIA;
    }

    method UseTzIndonesia()
      modifies this
      ensures timezone == TZ_INDONESIA
    {
      timezone := TZ_INDONESIA;
    }

    method UseTzShanghai()
      modifies this
      ensures timezone == TZ_SHANGHAI
    {
      timezone := TZ_SHANGHAI;
    }

    method UseTz(tz: Zone)
      modifies this
      ensures timezone == tz
    {
      timezone := tz;
    }
  }
}
