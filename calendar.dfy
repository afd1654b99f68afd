/**
 * Proleptic Gregorian calendar arithmetic: the part of Python's `datetime`
 * that the utility module leans on. Days are counted from the Unix epoch
 * day 1970-01-01 (day 0); negative day numbers are days before it.
 */
module Calendar {

  /** A civil date; `ValidDate` says when it names a real day. */
  datatype Date = Date(year: int, month: int, day: int)

  /** Day number of 1970-01-01 counted from 0000-01-01. */
  const EPOCH_DAYS: int := 719528

  predicate IsLeapYear(y: int) {
    y % 4 == 0 && (y % 100 != 0 || y % 400 == 0)
  }

  function DaysInYear(y: int): (n: int)
    ensures n == 365 || n == 366
    ensures n == 366 <==> IsLeapYear(y)
  {
    if IsLeapYear(y) then 366 else 365
  }

  function DaysInMonth(y: int, m: int): (n: int)
    requires 1 <= m <= 12
    ensures 28 <= n <= 31
    ensures m == 2 ==> (n == 29 <==> IsLeapYear(y))
  {
    if m == 2 then (if IsLeapYear(y) then 29 else 28)
    else if m == 4 || m == 6 || m == 9 || m == 11 then 30
    else 31
  }

  predicate ValidDate(d: Date) {
    1 <= d.month <= 12 && 1 <= d.day <= DaysInMonth(d.year, d.month)
  }

  /** Number of leap years in [0, y) (negated count of those in [y, 0) when y < 0). */
  function LeapYearsBefore(y: int): int {
    (y + 3) / 4 - (y + 99) / 100 + (y + 399) / 400
  }

  /** Days from 0000-01-01 to the first of January of year y. */
  function DaysBeforeYear(y: int): int {
    365 * y + LeapYearsBefore(y)
  }

  /** Days from the first of January of year y to the first day of month m. */
  function DaysBeforeMonth(y: int, m: int): int
    requires 1 <= m <= 12
  {
    var cumulative := [0, 31, 59, 90, 120, 151, 181, 212, 243, 273, 304, 334];
    if m > 2 && IsLeapYear(y) then cumulative[m - 1] + 1 else cumulative[m - 1]
  }

  lemma DaysBeforeNextYear(y: int)
    ensures DaysBeforeYear(y + 1) == DaysBeforeYear(y) + DaysInYear(y)
  {
    CeilingStep4(y);
    CeilingStep100(y);
    CeilingStep400(y);
    DivisibilityChain(y);
  }

  lemma DivisibilityChain(y: int)
    ensures y % 400 == 0 ==> y % 100 == 0
    ensures y % 100 == 0 ==> y % 4 == 0
  {
  }

  lemma CeilingStep4(y: int)
    ensures (y + 4) / 4 == (y + 3) / 4 + (if y % 4 == 0 then 1 else 0)
  {
  }

  lemma CeilingStep100(y: int)
    ensures (y + 100) / 100 == (y + 99) / 100 + (if y % 100 == 0 then 1 else 0)
  {
  }

  lemma CeilingStep400(y: int)
    ensures (y + 400) / 400 == (y + 399) / 400 + (if y % 400 == 0 then 1 else 0)
  {
  }

  lemma DaysBeforeNextMonth(y: int, m: int)
    requires 1 <= m <= 12
    ensures m < 12 ==> DaysBeforeMonth(y, m + 1) == DaysBeforeMonth(y, m) + DaysInMonth(y, m)
    ensures m == 12 ==> DaysBeforeMonth(y, m) + DaysInMonth(y, m) == DaysInYear(y)
  {
  }

  /** Each year begins strictly after every earlier one has ended. */
  lemma {:induction false} DaysBeforeYearMonotone(a: int, b: int)
    requires a < b
    ensures DaysBeforeYear(a + 1) <= DaysBeforeYear(b)
    decreases b - a
  {
    if a + 1 < b {
      DaysBeforeYearMonotone(a + 1, b);
      DaysBeforeNextYear(a + 1);
    }
  }

  lemma {:induction false} DaysBeforeMonthMonotone(y: int, a: int, b: int)
    requires 1 <= a < b <= 12
    ensures DaysBeforeMonth(y, a) + DaysInMonth(y, a) <= DaysBeforeMonth(y, b)
    decreases b - a
  {
    DaysBeforeNextMonth(y, a);
    if a + 1 < b {
      DaysBeforeMonthMonotone(y, a + 1, b);
    }
  }

  /** Day number of a civil date: 0 for 1970-01-01, counting forward and backward. */
  function DaysFromCivil(d: Date): int
    requires ValidDate(d)
  {
    DaysBeforeYear(d.year) + DaysBeforeMonth(d.year, d.month) + d.day - 1 - EPOCH_DAYS
  }

  /** A year whose first day is not after absolute day n. */
  function YearLowerBound(n: int): (y: int)
    ensures DaysBeforeYear(y) <= n
  {
    if n >= 0 then n / 366 else n / 365 - 1
  }

  /** The year containing absolute day n, searched upward from year y. */
  function FindYear(n: int, y: int): (r: int)
    requires DaysBeforeYear(y) <= n
    ensures DaysBeforeYear(r) <= n < DaysBeforeYear(r + 1)
    decreases n - DaysBeforeYear(y)
  {
    DaysBeforeNextYear(y);
    if n < DaysBeforeYear(y + 1) then y else FindYear(n, y + 1)
  }

  /** The month of year y containing day-of-year doy, searched upward from month m. */
  function FindMonth(y: int, doy: int, m: int): (r: int)
    requires 1 <= m <= 12
    requires DaysBeforeMonth(y, m) <= doy < DaysInYear(y)
    ensures 1 <= r <= 12
    ensures DaysBeforeMonth(y, r) <= doy < DaysBeforeMonth(y, r) + DaysInMonth(y, r)
    decreases 12 - m
  {
    DaysBeforeNextMonth(y, m);
    if m == 12 || doy < DaysBeforeMonth(y, m) + DaysInMonth(y, m) then m
    else FindMonth(y, doy, m + 1)
  }

  /** The civil date of day number z; the inverse of DaysFromCivil. */
  function CivilFromDays(z: int): (d: Date)
    ensures ValidDate(d)
    ensures DaysFromCivil(d) == z
  {
    var n := z + EPOCH_DAYS;
    var y := FindYear(n, YearLowerBound(n));
    DaysBeforeNextYear(y);
    var doy := n - DaysBeforeYear(y);
    var m := FindMonth(y, doy, 1);
    Date(y, m, doy - DaysBeforeMonth(y, m) + 1)
  }

  /** A valid date's absolute day number lies inside its own year. */
  lemma DateWithinYear(d: Date)
    requires ValidDate(d)
    ensures DaysBeforeYear(d.year) <= DaysFromCivil(d) + EPOCH_DAYS < DaysBeforeYear(d.year + 1)
  {
    DaysBeforeNextYear(d.year);
    DaysBeforeNextMonth(d.year, 12);
    if d.month < 12 {
      DaysBeforeMonthMonotone(d.year, d.month, 12);
    }
  }

  /** At most one year contains a given absolute day. */
  lemma YearUnique(n: int, a: int, b: int)
    requires DaysBeforeYear(a) <= n < DaysBeforeYear(a + 1)
    requires DaysBeforeYear(b) <= n < DaysBeforeYear(b + 1)
    ensures a == b
  {
    if a < b {
      DaysBeforeYearMonotone(a, b);
    } else if b < a {
      DaysBeforeYearMonotone(b, a);
    }
  }

  /** At most one month of a year contains a given day of that year. */
  lemma MonthUnique(y: int, doy: int, a: int, b: int)
    requires 1 <= a <= 12 && 1 <= b <= 12
    requires DaysBeforeMonth(y, a) <= doy < DaysBeforeMonth(y, a) + DaysInMonth(y, a)
    requires DaysBeforeMonth(y, b) <= doy < DaysBeforeMonth(y, b) + DaysInMonth(y, b)
    ensures a == b
  {
    if a < b {
      DaysBeforeMonthMonotone(y, a, b);
    } else if b < a {
      DaysBeforeMonthMonotone(y, b, a);
    }
  }

  /** Different valid dates have different day numbers. */
  lemma DaysFromCivilInjective(d: Date, e: Date)
    requires ValidDate(d) && ValidDate(e)
    requires DaysFromCivil(d) == DaysFromCivil(e)
    ensures d == e
  {
    var n := DaysFromCivil(d) + EPOCH_DAYS;
    DateWithinYear(d);
    DateWithinYear(e);
    YearUnique(n, d.year, e.year);
    MonthUnique(d.year, n - DaysBeforeYear(d.year), d.month, e.month);
  }

  /** Taking a valid date to its day number and back gives the same date. */
  lemma CivilFromDaysOfDate(d: Date)
    requires ValidDate(d)
    ensures CivilFromDays(DaysFromCivil(d)) == d
  {
    DaysFromCivilInjective(CivilFromDays(DaysFromCivil(d)), d);
  }

  /** The calendar's successor of a valid date, stated without day numbers. */
  function NextDate(d: Date): (e: Date)
    requires ValidDate(d)
    ensures ValidDate(e)
  {
    if d.day < DaysInMonth(d.year, d.month) then Date(d.year, d.month, d.day + 1)
    else if d.month < 12 then Date(d.year, d.month + 1, 1)
    else Date(d.year + 1, 1, 1)
  }

  /** One day number later is the next civil date: months, years and 29 February roll over. */
  lemma NextDayRollsOver(d: Date)
    requires ValidDate(d)
    ensures CivilFromDays(DaysFromCivil(d) + 1) == NextDate(d)
  {
    NextDateIsNextDay(d);
    CivilFromDaysOfDate(NextDate(d));
  }

  lemma NextDateIsNextDay(d: Date)
    requires ValidDate(d)
    ensures DaysFromCivil(NextDate(d)) == DaysFromCivil(d) + 1
  {
    if d.day == DaysInMonth(d.year, d.month) {
      DaysBeforeNextMonth(d.year, d.month);
      if d.month == 12 {
        DaysBeforeNextYear(d.year);
      }
    }
  }

  /** ISO weekday with Monday = 0; day 0 (1970-01-01) was a Thursday. */
  function Weekday(d: Date): (w: int)
    requires ValidDate(d)
    ensures 0 <= w < 7
  {
    (DaysFromCivil(d) + 3) % 7
  }

  lemma WeekdayOfNextDate(d: Date)
    requires ValidDate(d)
    ensures Weekday(NextDate(d)) == (Weekday(d) + 1) % 7
  {
    NextDayRollsOver(d);
    var z := DaysFromCivil(d) + 3;
    assert DaysFromCivil(NextDate(d)) + 3 == z + 1;
    ModSevenSucc(z);
  }

  lemma ModSevenSucc(z: int)
    ensures (z + 1) % 7 == (z % 7 + 1) % 7
  {
  }

  /** Going back from a date by its weekday, in days, lands on a Monday. */
  lemma MondayOfWeek(d: Date, monday: Date)
    requires ValidDate(d) && ValidDate(monday)
    requires DaysFromCivil(monday) == DaysFromCivil(d) - Weekday(d)
    ensures Weekday(monday) == 0
  {
    MondayOfWeekDays(DaysFromCivil(d), DaysFromCivil(monday));
  }

  lemma MondayOfWeekDays(z: int, m: int)
    requires m == z - (z + 3) % 7
    ensures (m + 3) % 7 == 0
  {
    var q := (z + 3) / 7;
    assert m + 3 == 7 * q;
  }

  /** Dates a whole number of weeks apart fall on the same weekday. */
  lemma SameWeekdayWeeksApart(d: Date, e: Date, n: int)
    requires ValidDate(d) && ValidDate(e)
    requires DaysFromCivil(e) == DaysFromCivil(d) + 7 * n
    ensures Weekday(e) == Weekday(d)
  {
    SameWeekdayDays(DaysFromCivil(d), n);
  }

  lemma SameWeekdayDays(z: int, n: int)
    ensures (z + 7 * n + 3) % 7 == (z + 3) % 7
  {
    var q := (z + 3) / 7;
    assert z + 7 * n + 3 == 7 * (q + n) + (z + 3) % 7;
  }

  lemma EpochIsThursday()
    ensures DaysFromCivil(Date(1970, 1, 1)) == 0
    ensures Weekday(Date(1970, 1, 1)) == 3
  {
  }

  lemma LeapDay2020IsSaturday()
    ensures ValidDate(Date(2020, 2, 29)) && !ValidDate(Date(2019, 2, 29))
    ensures Weekday(Date(2020, 2, 29)) == 5
    ensures DaysFromCivil(Date(2020, 2, 29)) == 18321
  {
  }
}
