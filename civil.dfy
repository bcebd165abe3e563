/**
  Proleptic Gregorian calendar arithmetic on day numbers.

  A day number counts days from 1970-01-01 (day 0); negative numbers are
  days before it.  This is the calendar the date-fns primitives
  (startOfMonth, endOfMonth, isSameMonth, ...) work in, once an instant has
  been reduced to the local calendar day it falls on.
*/
module Civil {

  /** A calendar date: year, month 1..12, day of month 1..31. */
  datatype CivilDate = CivilDate(year: int, month: int, day: int)

  predicate IsLeapYear(y: int) {
    y % 4 == 0 && (y % 100 != 0 || y % 400 == 0)
  }

  function DaysInYear(y: int): int {
    if IsLeapYear(y) then 366 else 365
  }

  /** Length of month m (1 = January) of year y. */
  function DaysInMonth(y: int, m: int): (n: int)
    requires 1 <= m <= 12
    ensures 28 <= n <= 31
    ensures m == 2 ==> (n == 29 <==> IsLeapYear(y))
  {
    if m == 2 then (if IsLeapYear(y) then 29 else 28)
    else if m == 4 || m == 6 || m == 9 || m == 11 then 30
    else 31
  }

  /** Days of year y that lie before the first of month m (m == 13: the whole year). */
  function DaysBeforeMonth(y: int, m: int): int
    requires 1 <= m <= 13
  {
    var common :=
      if m == 1 then 0 else if m == 2 then 31 else if m == 3 then 59
      else if m == 4 then 90 else if m == 5 then 120 else if m == 6 then 151
      else if m == 7 then 181 else if m == 8 then 212 else if m == 9 then 243
      else if m == 10 then 273 else if m == 11 then 304 else if m == 12 then 334
      else 365;
    common + (if IsLeapYear(y) && m > 2 then 1 else 0)
  }

  /** Days from 1970-01-01 to the first of January of year y, counted year by year. */
  function DaysBeforeYear(y: int): int
    decreases if y < 1970 then 1970 - y else y - 1970
  {
    if y == 1970 then 0
    else if y > 1970 then DaysBeforeYear(y - 1) + DaysInYear(y - 1)
    else DaysBeforeYear(y + 1) - DaysInYear(y)
  }

  lemma DaysBeforeYearStep(y: int)
    ensures DaysBeforeYear(y + 1) == DaysBeforeYear(y) + DaysInYear(y)
  {
  }

  /** Number of leap years among the years 1..x (for x < 1: minus those in x+1..0). */
  function LeapYearsThrough(x: int): int {
    x / 4 - x / 100 + x / 400
  }

  /** The year-by-year count agrees with the closed form of 365-day years plus leap days. */
  lemma {:induction false} DaysBeforeYearClosedForm(y: int)
    ensures DaysBeforeYear(y) == 365 * (y - 1970) + LeapYearsThrough(y - 1) - LeapYearsThrough(1969)
    decreases if y < 1970 then 1970 - y else y - 1970
  {
    if y > 1970 {
      DaysBeforeYearClosedForm(y - 1);
      LeapDayStep(y - 1);
    } else if y < 1970 {
      DaysBeforeYearClosedForm(y + 1);
      LeapDayStep(y);
    }
  }

  /** Year x adds one to the leap-year count exactly when it is a leap year. */
  lemma LeapDayStep(x: int)
    ensures LeapYearsThrough(x) - LeapYearsThrough(x - 1) == if IsLeapYear(x) then 1 else 0
  {
    MultipleStep(x, 4);
    MultipleStep(x, 100);
    MultipleStep(x, 400);
  }

  /** Going from x - 1 to x passes a multiple of k exactly when k divides x. */
  lemma MultipleStep(x: int, k: int)
    requires k == 4 || k == 100 || k == 400
    ensures x / k - (x - 1) / k == if x % k == 0 then 1 else 0
  {
    if k == 4 {
      assert x / 4 - (x - 1) / 4 == if x % 4 == 0 then 1 else 0;
    } else if k == 100 {
      assert x / 100 - (x - 1) / 100 == if x % 100 == 0 then 1 else 0;
    } else {
      assert x / 400 - (x - 1) / 400 == if x % 400 == 0 then 1 else 0;
    }
  }

  lemma DaysBeforeMonthStep(y: int, m: int)
    requires 1 <= m <= 12
    ensures DaysBeforeMonth(y, m + 1) == DaysBeforeMonth(y, m) + DaysInMonth(y, m)
    ensures DaysBeforeMonth(y, 1) == 0 && DaysBeforeMonth(y, 13) == DaysInYear(y)
  {
  }

  /** DaysBeforeYear is strictly increasing, by at least a year's length. */
  lemma {:induction false} DaysBeforeYearMonotone(a: int, b: int)
    requires a < b
    ensures DaysBeforeYear(a + 1) <= DaysBeforeYear(b)
    decreases b - a
  {
    DaysBeforeYearStep(b - 1);
    if a + 1 < b {
      DaysBeforeYearMonotone(a, b - 1);
    }
  }

  lemma {:induction false} DaysBeforeMonthMonotone(y: int, a: int, b: int)
    requires 1 <= a < b <= 13
    ensures DaysBeforeMonth(y, a + 1) <= DaysBeforeMonth(y, b)
    decreases b - a
  {
    DaysBeforeMonthStep(y, b - 1);
    if a + 1 < b {
      DaysBeforeMonthMonotone(y, a, b - 1);
    }
  }

  predicate ValidDate(c: CivilDate) {
    1 <= c.month <= 12 && 1 <= c.day <= DaysInMonth(c.year, c.month)
  }

  /** Day number of a calendar date. */
  function ToDayNumber(c: CivilDate): int
    requires ValidDate(c)
  {
    DaysBeforeYear(c.year) + DaysBeforeMonth(c.year, c.month) + c.day - 1
  }

  /** The calendar date after c. */
  function NextDay(c: CivilDate): (r: CivilDate)
    requires ValidDate(c)
    ensures ValidDate(r) && ToDayNumber(r) == ToDayNumber(c) + 1
  {
    DaysBeforeMonthStep(c.year, c.month);
    DaysBeforeYearStep(c.year);
    if c.day < DaysInMonth(c.year, c.month) then CivilDate(c.year, c.month, c.day + 1)
    else if c.month < 12 then CivilDate(c.year, c.month + 1, 1)
    else CivilDate(c.year + 1, 1, 1)
  }

  /** The calendar date before c. */
  function PreviousDay(c: CivilDate): (r: CivilDate)
    requires ValidDate(c)
    ensures ValidDate(r) && ToDayNumber(r) + 1 == ToDayNumber(c)
  {
    if c.day > 1 then CivilDate(c.year, c.month, c.day - 1)
    else if c.month > 1 then
      DaysBeforeMonthStep(c.year, c.month - 1);
      CivilDate(c.year, c.month - 1, DaysInMonth(c.year, c.month - 1))
    else
      DaysBeforeYearStep(c.year - 1);
      DaysBeforeMonthStep(c.year - 1, 12);
      CivilDate(c.year - 1, 12, 31)
  }

  /** Calendar date of a day number, counted day by day from 1970-01-01. */
  function FromDayNumber(n: int): (c: CivilDate)
    ensures ValidDate(c)
    ensures ToDayNumber(c) == n
    decreases if n < 0 then -n else n
  {
    if n == 0 then CivilDate(1970, 1, 1)
    else if n > 0 then NextDay(FromDayNumber(n - 1))
    else PreviousDay(FromDayNumber(n + 1))
  }

  /** A valid date's day number lies within its year. */
  lemma DateInYear(c: CivilDate)
    requires ValidDate(c)
    ensures DaysBeforeYear(c.year) <= ToDayNumber(c) < DaysBeforeYear(c.year + 1)
  {
    DaysBeforeMonthStep(c.year, c.month);
    if c.month < 12 {
      DaysBeforeMonthMonotone(c.year, c.month, 13);
    }
    DaysBeforeYearStep(c.year);
  }

  /** A day number lies in one year only. */
  lemma OneYear(a: int, b: int, n: int)
    requires DaysBeforeYear(a) <= n < DaysBeforeYear(a + 1)
    requires DaysBeforeYear(b) <= n < DaysBeforeYear(b + 1)
    ensures a == b
  {
    if a < b {
      DaysBeforeYearMonotone(a, b);
    } else if b < a {
      DaysBeforeYearMonotone(b, a);
    }
  }

  /** A day of year y lies in one month only. */
  lemma OneMonth(y: int, a: int, b: int, r: int)
    requires 1 <= a <= 12 && 1 <= b <= 12
    requires DaysBeforeMonth(y, a) <= r < DaysBeforeMonth(y, a + 1)
    requires DaysBeforeMonth(y, b) <= r < DaysBeforeMonth(y, b + 1)
    ensures a == b
  {
    if a < b {
      DaysBeforeMonthMonotone(y, a, b);
    } else if b < a {
      DaysBeforeMonthMonotone(y, b, a);
    }
  }

  /** Different valid dates have different day numbers. */
  lemma DateUnique(c: CivilDate, d: CivilDate)
    requires ValidDate(c) && ValidDate(d)
    requires ToDayNumber(c) == ToDayNumber(d)
    ensures c == d
  {
    var n := ToDayNumber(c);
    DateInYear(c);
    DateInYear(d);
    OneYear(c.year, d.year, n);
    DaysBeforeMonthStep(c.year, c.month);
    DaysBeforeMonthStep(c.year, d.month);
    OneMonth(c.year, c.month, d.month, n - DaysBeforeYear(c.year));
  }

  /** The other half of the round trip: every valid date is recovered from its day number. */
  lemma FromToDayNumber(c: CivilDate)
    requires ValidDate(c)
    ensures FromDayNumber(ToDayNumber(c)) == c
  {
    DateUnique(FromDayNumber(ToDayNumber(c)), c);
  }

  /** Day number 0 is 1970-01-01. */
  lemma EpochIsNewYear1970()
    ensures FromDayNumber(0) == CivilDate(1970, 1, 1)
  {
    var c := CivilDate(1970, 1, 1);
    assert DaysBeforeYear(1970) == 0;
    assert ToDayNumber(c) == 0;
    FromToDayNumber(c);
  }

  /** Day of the week, 0 = Sunday .. 6 = Saturday (1970-01-01 was a Thursday). */
  function Weekday(n: int): (w: int)
    ensures 0 <= w < 7
  {
    (n + 4) % 7
  }

  /** Day n - Weekday(n) is the Sunday on or before day n. */
  lemma SundayOnOrBefore(n: int)
    ensures Weekday(n - Weekday(n)) == 0
  {
    var q := (n + 4) / 7;
    assert n + 4 == 7 * q + Weekday(n);
    assert n - Weekday(n) + 4 == 7 * q;
  }

  /** Day number of the first day of the month n falls in. */
  function FirstOfMonth(n: int): (f: int)
    ensures f <= n
  {
    n - FromDayNumber(n).day + 1
  }

  /** Number of days of the month n falls in. */
  function MonthLength(n: int): (l: int)
    ensures 28 <= l <= 31
  {
    DaysInMonth(FromDayNumber(n).year, FromDayNumber(n).month)
  }

  /** Day number of the last day of the month n falls in. */
  function LastOfMonth(n: int): (l: int)
    ensures n <= l
    ensures l == FirstOfMonth(n) + MonthLength(n) - 1
  {
    var c := FromDayNumber(n);
    n - c.day + DaysInMonth(c.year, c.month)
  }

  /** Same year and same month. */
  predicate SameMonth(a: int, b: int) {
    FromDayNumber(a).year == FromDayNumber(b).year && FromDayNumber(a).month == FromDayNumber(b).month
  }

  /** The day k days after the first of n's month (k below the month's length) has day-of-month k + 1. */
  lemma DayOfMonthAt(n: int, d: int)
    requires FirstOfMonth(n) <= d <= LastOfMonth(n)
    ensures FromDayNumber(d) == CivilDate(FromDayNumber(n).year, FromDayNumber(n).month, d - FirstOfMonth(n) + 1)
  {
    var c := FromDayNumber(n);
    var dd := CivilDate(c.year, c.month, d - FirstOfMonth(n) + 1);
    DateShift(c, dd);
    FromToDayNumber(dd);
  }

  /** Within one month, day numbers and days of the month move together. */
  lemma DateShift(c: CivilDate, d: CivilDate)
    requires ValidDate(c) && c.year == d.year && c.month == d.month && 1 <= d.day <= DaysInMonth(c.year, c.month)
    ensures ValidDate(d)
    ensures ToDayNumber(d) == ToDayNumber(c) + d.day - c.day
  {
  }

  /** Two days share year and month exactly when their months start on the same day. */
  lemma SameMonthSameFirst(a: int, b: int)
    ensures SameMonth(a, b) <==> FirstOfMonth(a) == FirstOfMonth(b)
  {
    DayOfMonthAt(a, FirstOfMonth(a));
    DayOfMonthAt(b, FirstOfMonth(b));
    if SameMonth(a, b) {
      SameMonthIsRange(a, b);
      DayOfMonthAt(b, a);
    }
  }

  /** A day shares n's month exactly when it lies between the first and the last of that month. */
  lemma SameMonthIsRange(a: int, n: int)
    ensures SameMonth(a, n) <==> FirstOfMonth(n) <= a <= LastOfMonth(n)
  {
    var c := FromDayNumber(n);
    var ca := FromDayNumber(a);
    var first := FirstOfMonth(n);
    var last := LastOfMonth(n);
    assert last == first + DaysInMonth(c.year, c.month) - 1;
    if first <= a <= last {
      DayOfMonthAt(n, a);
      assert SameMonth(a, n);
    }
    if SameMonth(a, n) {
      DateShift(c, ca);
      assert a == n + ca.day - c.day;
      assert first <= a <= last;
    }
  }
}
