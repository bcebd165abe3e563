/**
  The date-fns primitives used by the calendar utilities, on instants.

  An instant is a local wall-clock time in integer milliseconds, the value
  of `Date.prototype.getTime()` with every day exactly 86,400,000 ms long.
  Its calendar day is `Day(t)`, a day number of module Civil.
*/
module DateFns {
  import opened Civil

  type Time = int

  const MsPerSecond: int := 1000
  const MsPerMinute: int := 60_000
  const MsPerHour: int := 3_600_000
  const MsPerDay: int := 86_400_000

  /** The calendar day an instant falls on. */
  function Day(t: Time): int {
    t / MsPerDay
  }

  /** Milliseconds since local midnight. */
  function TimeOfDay(t: Time): (r: int)
    ensures 0 <= r < MsPerDay
    ensures t == Day(t) * MsPerDay + r
  {
    t % MsPerDay
  }

  /** `getHours()`. */
  function Hours(t: Time): (h: int)
    ensures 0 <= h < 24
  {
    TimeOfDay(t) / MsPerHour
  }

  /** `getMinutes()`. */
  function Minutes(t: Time): (m: int)
    ensures 0 <= m < 60
  {
    TimeOfDay(t) % MsPerHour / MsPerMinute
  }

  /** `getSeconds()`. */
  function Seconds(t: Time): (s: int)
    ensures 0 <= s < 60
  {
    TimeOfDay(t) % MsPerMinute / MsPerSecond
  }

  /** `getMilliseconds()`. */
  function Milliseconds(t: Time): (ms: int)
    ensures 0 <= ms < 1000
  {
    TimeOfDay(t) % MsPerSecond
  }

  /** Whole minutes since local midnight. */
  function MinuteOfDay(t: Time): (m: int)
    ensures 0 <= m < 24 * 60
  {
    TimeOfDay(t) / MsPerMinute
  }

  /** The clock fields put together again give the instant back. */
  lemma ClockFields(t: Time)
    ensures t == Day(t) * MsPerDay + Hours(t) * MsPerHour + Minutes(t) * MsPerMinute
                 + Seconds(t) * MsPerSecond + Milliseconds(t)
    ensures MinuteOfDay(t) == 60 * Hours(t) + Minutes(t)
  {
    var x := TimeOfDay(t);
    assert x == x / MsPerHour * MsPerHour + x % MsPerHour;
    var y := x % MsPerHour;
    assert y == y / MsPerMinute * MsPerMinute + y % MsPerMinute;
    var z := y % MsPerMinute;
    assert z == z / MsPerSecond * MsPerSecond + z % MsPerSecond;
    assert x % MsPerMinute == z;
    assert x % MsPerSecond == z % MsPerSecond;
    assert x / MsPerMinute == 60 * (x / MsPerHour) + y / MsPerMinute;
  }

  /** An instant `off` milliseconds after the midnight that starts day `d`. */
  lemma InstantOnDay(d: int, off: int)
    requires 0 <= off < MsPerDay
    ensures Day(d * MsPerDay + off) == d
    ensures TimeOfDay(d * MsPerDay + off) == off
  {
  }

  /** Local midnight that begins day number d. */
  function Midnight(d: int): (r: Time)
    ensures Day(r) == d && TimeOfDay(r) == 0
  {
    InstantOnDay(d, 0);
    d * MsPerDay
  }

  /** `startOfDay`: local midnight of the instant's day. */
  function StartOfDay(t: Time): (r: Time)
    ensures r <= t < r + MsPerDay
    ensures Day(r) == Day(t) && TimeOfDay(r) == 0
  {
    Midnight(Day(t))
  }

  /** `endOfDay`: 23:59:59.999 of the instant's day. */
  function EndOfDay(t: Time): (r: Time)
    ensures r == StartOfDay(t) + MsPerDay - 1
    ensures Day(r) == Day(t)
  {
    InstantOnDay(Day(t), MsPerDay - 1);
    Day(t) * MsPerDay + 23 * MsPerHour + 59 * MsPerMinute + 59 * MsPerSecond + 999
  }

  /** `addDays(t, n)`: same clock time, n days later. */
  function AddDays(t: Time, n: int): (r: Time)
    ensures Day(r) == Day(t) + n && TimeOfDay(r) == TimeOfDay(t)
  {
    InstantOnDay(Day(t) + n, TimeOfDay(t));
    t + n * MsPerDay
  }

  /**
    `setHours(h, m, s, ms)` on a copy of t: JavaScript's MakeTime, which lets
    out-of-range fields carry into the neighbouring days.
  */
  function SetHours(t: Time, h: int, m: int, s: int, ms: int): (r: Time)
    ensures 0 <= h < 24 && 0 <= m < 60 && 0 <= s < 60 && 0 <= ms < 1000 ==>
      Day(r) == Day(t) && Hours(r) == h && Minutes(r) == m && Seconds(r) == s && Milliseconds(r) == ms
  {
    var r := StartOfDay(t) + h * MsPerHour + m * MsPerMinute + s * MsPerSecond + ms;
    if 0 <= h < 24 && 0 <= m < 60 && 0 <= s < 60 && 0 <= ms < 1000 then
      InstantOnDay(Day(t), h * MsPerHour + m * MsPerMinute + s * MsPerSecond + ms);
      ClockFields(r);
      r
    else
      r
  }

  /** `getDay()`: 0 = Sunday .. 6 = Saturday. */
  function DayOfWeek(t: Time): (w: int)
    ensures 0 <= w < 7
  {
    Weekday(Day(t))
  }

  /** `startOfWeek(t, { weekStartsOn })`: midnight of the last week-start day on or before t. */
  function StartOfWeek(t: Time, weekStartsOn: int): (r: Time)
    requires 0 <= weekStartsOn <= 6
    ensures TimeOfDay(r) == 0 && DayOfWeek(r) == weekStartsOn
    ensures Day(t) - 6 <= Day(r) <= Day(t)
  {
    var day := DayOfWeek(t);
    var diff := (if day < weekStartsOn then 7 else 0) + day - weekStartsOn;
    InstantOnDay(Day(t) - diff, 0);
    StartOfDay(t) - diff * MsPerDay
  }

  /** `endOfWeek(t, { weekStartsOn })`: 23:59:59.999 of the sixth day after the week's start. */
  function EndOfWeek(t: Time, weekStartsOn: int): (r: Time)
    requires 0 <= weekStartsOn <= 6
    ensures r == StartOfWeek(t, weekStartsOn) + 7 * MsPerDay - 1
  {
    var day := DayOfWeek(t);
    var diff := (if day < weekStartsOn then -7 else 0) + 6 - (day - weekStartsOn);
    EndOfDay(AddDays(t, diff))
  }

  /** The Sunday-based week of t runs from day Day(t) - Weekday(Day(t)) for seven days. */
  lemma SundayWeekBounds(t: Time)
    ensures Day(StartOfWeek(t, 0)) == Day(t) - Weekday(Day(t))
    ensures StartOfWeek(t, 0) == Midnight(Day(t) - Weekday(Day(t)))
    ensures EndOfWeek(t, 0) == Midnight(Day(t) - Weekday(Day(t)) + 6) + MsPerDay - 1
  {
  }

  /** `startOfMonth`: midnight of the first of the instant's month. */
  function StartOfMonth(t: Time): (r: Time)
    ensures TimeOfDay(r) == 0 && Day(r) == FirstOfMonth(Day(t))
  {
    Midnight(FirstOfMonth(Day(t)))
  }

  /** `endOfMonth`: 23:59:59.999 of the last day of the instant's month. */
  function EndOfMonth(t: Time): (r: Time)
    ensures Day(r) == LastOfMonth(Day(t)) && r == EndOfDay(r)
  {
    EndOfDay(Midnight(LastOfMonth(Day(t))))
  }

  /** `isSameMonth`: same calendar year and month, that is, the same startOfMonth. */
  predicate IsSameMonth(a: Time, b: Time)
    ensures IsSameMonth(a, b) <==> StartOfMonth(a) == StartOfMonth(b)
  {
    SameMonthSameFirst(Day(a), Day(b));
    SameMonth(Day(a), Day(b))
  }

  /** `isWithinInterval(t, { start, end })`, both ends included; t then lies on a day of the interval. */
  predicate IsWithinInterval(t: Time, start: Time, end: Time)
    requires start <= end
    ensures IsWithinInterval(t, start, end) ==> Day(start) <= Day(t) <= Day(end)
  {
    start <= t <= end
  }

  /** An instant shares t's month exactly when it lies between startOfMonth(t) and endOfMonth(t). */
  lemma SameMonthWithin(a: Time, t: Time)
    ensures IsSameMonth(a, t) <==> StartOfMonth(t) <= a <= EndOfMonth(t)
  {
    SameMonthIsRange(Day(a), Day(t));
  }
}
