/**
  Grid builder and event placement for the month and week views
  (src/utils/date.utils.ts).
*/
module DateUtils {
  import opened Civil
  import opened DateFns
  import opened Seqs
  import opened CalendarTypes

  /** Weeks start on Sunday everywhere in the views. */
  const WeekStartsOn: int := 0
  /** Vertical pixels per hour of the week view. */
  const HourHeight: int := 60
  /** Smallest height of an event block, in pixels. */
  const MinEventHeight: int := 30
  /** Cells of the month grid: six weeks. */
  const GridCells: int := 42

  /** Vertical placement of an event block in the week view. */
  datatype Position = Position(top: int, height: int)

  /** Whole calendar days from the day of `start` to the day of `end`; the clock time does not matter. */
  function DaysBetween(start: Time, end: Time): (r: int)
    ensures r == Day(end) - Day(start)
  {
    var startMs := StartOfDay(start);
    var endMs := StartOfDay(end);
    assert endMs - startMs == (Day(end) - Day(start)) * MsPerDay;
    (endMs - startMs) / MsPerDay
  }

  /** `isSameDay` of date-fns: the same local calendar day, whatever the clock times. */
  predicate IsSameDayUtil(a: Time, b: Time)
    ensures IsSameDayUtil(a, b) <==> Day(a) == Day(b)
  {
    StartOfDay(a) == StartOfDay(b)
  }

  /** `isToday`, with the clock reading passed in as `now`. */
  predicate IsToday(date: Time, now: Time)
    ensures IsToday(date, now) <==> StartOfDay(now) <= date < StartOfDay(now) + MsPerDay
  {
    IsSameDayUtil(date, now)
  }

  /** The midnights of the n consecutive days starting with day s. */
  function Midnights(s: int, n: nat): (r: seq<Time>)
    ensures |r| == n
    ensures forall i :: 0 <= i < n ==> r[i] == Midnight(s + i)
  {
    if n == 0 then [] else Midnights(s, n - 1) + [Midnight(s + n - 1)]
  }

  /** A sequence holding the midnights of days s, s + 1, ... is Midnights(s, _). */
  lemma MidnightsAt(days: seq<Time>, s: int)
    requires forall i :: 0 <= i < |days| ==> days[i] == Midnight(s + i)
    ensures days == Midnights(s, |days|)
  {
  }

  /** The midnights of the days of `date`'s month, the 1st first. */
  method GetDaysInMonth(date: Time) returns (days: seq<Time>)
    ensures days == Midnights(FirstOfMonth(Day(date)), MonthLength(Day(date)))
    ensures forall i :: 0 <= i < |days| ==>
      FromDayNumber(Day(days[i]))
        == CivilDate(FromDayNumber(Day(date)).year, FromDayNumber(Day(date)).month, i + 1)
  {
    var first := FirstOfMonth(Day(date));
    var start := StartOfMonth(date);
    var end := EndOfMonth(date);
    days := [];
    var current := start;
    while current <= end
      invariant |days| <= MonthLength(Day(date))
      invariant current == Midnight(first + |days|)
      invariant days == Midnights(first, |days|)
      decreases end - current
    {
      days := days + [current];
      current := AddDays(current, 1);
    }
    MonthDates(Day(date), days);
  }

  /** The midnights from the first of n's month are the 1st, 2nd, ... of that month. */
  lemma MonthDates(n: int, days: seq<Time>)
    requires |days| <= MonthLength(n)
    requires days == Midnights(FirstOfMonth(n), |days|)
    ensures forall i :: 0 <= i < |days| ==>
      FromDayNumber(Day(days[i])) == CivilDate(FromDayNumber(n).year, FromDayNumber(n).month, i + 1)
  {
    forall i | 0 <= i < |days|
      ensures FromDayNumber(Day(days[i])) == CivilDate(FromDayNumber(n).year, FromDayNumber(n).month, i + 1)
    {
      assert Day(days[i]) == FirstOfMonth(n) + i;
      DayOfMonthAt(n, Day(days[i]));
    }
  }

  /** The days of a February: 29 in a leap year, 28 otherwise. */
  lemma FebruaryLength(year: int, day: int)
    requires 1 <= day <= 28
    ensures MonthLength(ToDayNumber(CivilDate(year, 2, day))) == if IsLeapYear(year) then 29 else 28
  {
    FromToDayNumber(CivilDate(year, 2, day));
  }

  /**
    A month of 28 to 31 days from day f to day l, widened to whole
    Sunday-to-Saturday weeks, spans four, five or six weeks.
  */
  lemma WeekAlignedSpan(f: int, l: int)
    requires 27 <= l - f <= 30
    ensures var len := (l + 6 - Weekday(l)) - (f - Weekday(f)) + 1;
            len == 28 || len == 35 || len == 42
  {
    var a := (f + 4) % 7;
    var q := (f + 4) / 7;
    assert f + 4 == 7 * q + a;
    var x := a + l - f;
    assert l + 4 == 7 * q + x;
    assert Weekday(l) == x % 7;
    assert x == 7 * (x / 7) + x % 7;
    assert 3 <= x / 7 <= 5;
  }

  /** Day number of the first grid cell: the Sunday on or before the 1st of `date`'s month. */
  function GridStart(date: Time): (s: int)
    ensures s == FirstOfMonth(Day(date)) - Weekday(FirstOfMonth(Day(date)))
  {
    SundayWeekBounds(StartOfMonth(date));
    Day(StartOfWeek(StartOfMonth(date), WeekStartsOn))
  }

  /** The weeks around `date`'s month run from midnight of GridStart(date) for 28, 35 or 42 days. */
  lemma GridSpan(date: Time)
    ensures StartOfWeek(StartOfMonth(date), WeekStartsOn) == Midnight(GridStart(date))
    ensures var e := Day(EndOfWeek(EndOfMonth(date), WeekStartsOn));
            && EndOfWeek(EndOfMonth(date), WeekStartsOn) == Midnight(e) + MsPerDay - 1
            && e - GridStart(date) + 1 <= GridCells
  {
    var f := FirstOfMonth(Day(date));
    var l := LastOfMonth(Day(date));
    SundayWeekBounds(StartOfMonth(date));
    SundayWeekBounds(EndOfMonth(date));
    WeekAlignedSpan(f, l);
  }

  /** The 42-cell month grid: consecutive midnights from the Sunday on or before the 1st. */
  method GetCalendarGrid(date: Time) returns (grid: seq<Time>)
    ensures grid == Midnights(GridStart(date), GridCells)
  {
    var monthStart := StartOfMonth(date);
    var monthEnd := EndOfMonth(date);
    var startDate := StartOfWeek(monthStart, WeekStartsOn);
    var endDate := EndOfWeek(monthEnd, WeekStartsOn);
    ghost var s := GridStart(date);
    ghost var e := Day(endDate);
    GridSpan(date);

    grid := [];
    var current := startDate;
    while current <= endDate
      invariant |grid| <= e - s + 1
      invariant current == Midnight(s + |grid|)
      invariant forall i :: 0 <= i < |grid| ==> grid[i] == Midnight(s + i)
      decreases endDate - current
    {
      grid := grid + [current];
      current := AddDays(current, 1);
    }

    while |grid| < GridCells
      invariant |grid| <= GridCells
      invariant current == Midnight(s + |grid|)
      invariant forall i :: 0 <= i < |grid| ==> grid[i] == Midnight(s + i)
    {
      grid := grid + [current];
      current := AddDays(current, 1);
    }
    MidnightsAt(grid, s);
  }

  /** The grid starts on the Sunday on or before the 1st, within the week before it. */
  lemma GridStartsOnSunday(date: Time)
    ensures Weekday(GridStart(date)) == 0
    ensures Midnight(GridStart(date)) <= StartOfMonth(date) < AddDays(Midnight(GridStart(date)), 7)
  {
    SundayOnOrBefore(FirstOfMonth(Day(date)));
  }

  /** Every day of `date`'s month lies among the 42 days from GridStart(date). */
  lemma MonthWithinGrid(date: Time, t: Time)
    requires IsSameMonth(t, date)
    ensures GridStart(date) <= Day(t) < GridStart(date) + GridCells
  {
    SameMonthIsRange(Day(t), Day(date));
    WeekAlignedSpan(FirstOfMonth(Day(date)), LastOfMonth(Day(date)));
  }

  /**
    What the grid shows: 42 strictly increasing consecutive midnights, the
    first a Sunday in the week before the 1st, and every day of the month.
  */
  lemma CalendarGridProperties(date: Time, grid: seq<Time>)
    requires grid == Midnights(GridStart(date), GridCells)
    ensures |grid| == GridCells
    ensures DayOfWeek(grid[0]) == 0 && grid[0] <= StartOfMonth(date) < AddDays(grid[0], 7)
    ensures forall i :: 0 < i < |grid| ==> grid[i] == AddDays(grid[i - 1], 1)
    ensures forall i, j :: 0 <= i < j < |grid| ==> grid[i] < grid[j]
    ensures forall t :: IsSameMonth(t, date) ==> StartOfDay(t) in grid
  {
    var s := GridStart(date);
    GridStartsOnSunday(date);
    ConsecutiveMidnights(grid, s);
    forall t | IsSameMonth(t, date) ensures StartOfDay(t) in grid {
      MonthWithinGrid(date, t);
    }
  }

  /** Midnights of consecutive days step one day at a time, strictly upwards, and cover their days. */
  lemma ConsecutiveMidnights(days: seq<Time>, s: int)
    requires days == Midnights(s, |days|)
    ensures forall i :: 0 < i < |days| ==> days[i] == AddDays(days[i - 1], 1)
    ensures forall i, j :: 0 <= i < j < |days| ==> days[i] < days[j]
    ensures forall t :: s <= Day(t) < s + |days| ==> StartOfDay(t) in days
  {
    forall t | s <= Day(t) < s + |days| ensures StartOfDay(t) in days {
      assert days[Day(t) - s] == StartOfDay(t);
    }
  }

  /** The seven midnights of the Sunday-to-Saturday week containing `date`. */
  method GetWeekDays(date: Time) returns (days: seq<Time>)
    ensures |days| == 7
    ensures days[0] == StartOfWeek(date, WeekStartsOn) && DayOfWeek(days[0]) == 0
    ensures forall i :: 0 < i < |days| ==> days[i] == AddDays(days[i - 1], 1)
    ensures 0 <= Day(date) - Day(days[0]) < 7 && days[Day(date) - Day(days[0])] == StartOfDay(date)
  {
    var start := StartOfWeek(date, WeekStartsOn);
    var end := EndOfWeek(date, WeekStartsOn);
    ghost var s := Day(start);
    days := [];
    var current := start;
    while current <= end
      invariant |days| <= 7
      invariant current == Midnight(s + |days|)
      invariant forall i :: 0 <= i < |days| ==> days[i] == Midnight(s + i)
      decreases end - current
    {
      days := days + [current];
      current := AddDays(current, 1);
    }
  }

  /** `isCurrentMonth`: the cell lies in the displayed month. */
  predicate IsCurrentMonth(date: Time, currentDate: Time)
    ensures IsCurrentMonth(date, currentDate) <==>
            StartOfMonth(currentDate) <= date <= EndOfMonth(currentDate)
  {
    SameMonthWithin(date, currentDate);
    IsSameMonth(date, currentDate)
  }

  /** The 24 hourly slots of `date`'s day: hour h starts at h:00:00.000. */
  method GenerateTimeSlots(date: Time) returns (slots: seq<Time>)
    ensures |slots| == 24
    ensures forall h :: 0 <= h < 24 ==> slots[h] == StartOfDay(date) + h * MsPerHour
    ensures forall h :: 0 <= h < 24 ==>
      Day(slots[h]) == Day(date) && Hours(slots[h]) == h && Minutes(slots[h]) == 0
      && Seconds(slots[h]) == 0 && Milliseconds(slots[h]) == 0
  {
    slots := [];
    var dayStart := StartOfDay(date);
    for hour := 0 to 24
      invariant |slots| == hour
      invariant forall h :: 0 <= h < hour ==> slots[h] == dayStart + h * MsPerHour
      invariant forall h :: 0 <= h < hour ==>
        Day(slots[h]) == Day(date) && Hours(slots[h]) == h && Minutes(slots[h]) == 0
        && Seconds(slots[h]) == 0 && Milliseconds(slots[h]) == 0
    {
      var slot := SetHours(dayStart, hour, 0, 0, 0);
      slots := slots + [slot];
    }
  }

  /**
    The event [eventStart, eventEnd] overlaps the slot [slotStart, slotEnd):
    it starts in the slot, ends in it, or covers it.
  */
  predicate IsEventInTimeSlot(eventStart: Time, eventEnd: Time, slotStart: Time, slotEnd: Time)
    ensures eventStart < eventEnd && slotStart < slotEnd ==>
      (IsEventInTimeSlot(eventStart, eventEnd, slotStart, slotEnd) <==>
         eventStart < slotEnd && slotStart < eventEnd)
  {
    (eventStart >= slotStart && eventStart < slotEnd)
    || (eventEnd > slotStart && eventEnd <= slotEnd)
    || (eventStart <= slotStart && eventEnd >= slotEnd)
  }

  /**
    Top and height of an event block: `(hours + minutes / 60) * HourHeight`
    for the start, and the difference of the two such values for the height,
    but never less than MinEventHeight.  With 60 pixels per hour the exact
    values are whole numbers of minutes; they are computed exactly here,
    without the rounding of double-precision arithmetic.
  */
  function GetEventPosition(eventStart: Time, eventEnd: Time): (p: Position)
    ensures p.top == MinuteOfDay(eventStart)
    ensures p.height >= MinEventHeight
    ensures p.height == if MinuteOfDay(eventEnd) - MinuteOfDay(eventStart) > MinEventHeight
                        then MinuteOfDay(eventEnd) - MinuteOfDay(eventStart) else MinEventHeight
  {
    ClockFields(eventStart);
    ClockFields(eventEnd);
    var startHour := Hours(eventStart) * HourHeight + Minutes(eventStart) * HourHeight / 60;
    var endHour := Hours(eventEnd) * HourHeight + Minutes(eventEnd) * HourHeight / 60;
    var height := endHour - startHour;
    Position(startHour, if height > MinEventHeight then height else MinEventHeight)
  }

  /** 09:00-10:30 is placed at {540, 90}; 09:00-09:05 is stretched to the minimum {540, 30}. */
  lemma EventPositionExamples(d: int)
    ensures GetEventPosition(Midnight(d) + 9 * MsPerHour, Midnight(d) + 10 * MsPerHour + 30 * MsPerMinute)
            == Position(540, 90)
    ensures GetEventPosition(Midnight(d) + 9 * MsPerHour, Midnight(d) + 9 * MsPerHour + 5 * MsPerMinute)
            == Position(540, 30)
  {
    InstantOnDay(d, 9 * MsPerHour);
    InstantOnDay(d, 10 * MsPerHour + 30 * MsPerMinute);
    InstantOnDay(d, 9 * MsPerHour + 5 * MsPerMinute);
  }

  /** date-fns accepts the interval [startOfDay(start), endOfDay(end)] only when it is not reversed. */
  predicate HasValidDaySpan(event: CalendarEvent) {
    StartOfDay(event.startDate) <= EndOfDay(event.endDate)
  }

  /** The event touches `date`'s calendar day: it is on every day from its first to its last. */
  predicate IsEventOnDate(event: CalendarEvent, date: Time)
    requires HasValidDaySpan(event)
    ensures IsEventOnDate(event, date) <==> Day(event.startDate) <= Day(date) <= Day(event.endDate)
  {
    var dayStart := StartOfDay(date);
    var dayEnd := EndOfDay(date);
    var spanStart := StartOfDay(event.startDate);
    var spanEnd := EndOfDay(event.endDate);
    IsWithinInterval(dayStart, spanStart, spanEnd)
    || IsWithinInterval(dayEnd, spanStart, spanEnd)
    || (event.startDate <= dayStart && event.endDate >= dayEnd)
  }

  /** An event from 09:00 on day d to 17:00 on day d + 2 shows on d, d + 1 and d + 2 only. */
  lemma ThreeDayEventExample(event: CalendarEvent, d: int)
    requires event.startDate == Midnight(d) + 9 * MsPerHour
    requires event.endDate == Midnight(d + 2) + 17 * MsPerHour
    ensures HasValidDaySpan(event)
    ensures IsEventOnDate(event, Midnight(d)) && IsEventOnDate(event, Midnight(d + 1))
    ensures IsEventOnDate(event, Midnight(d + 2))
    ensures !IsEventOnDate(event, Midnight(d - 1)) && !IsEventOnDate(event, Midnight(d + 3))
  {
    InstantOnDay(d, 9 * MsPerHour);
    InstantOnDay(d + 2, 17 * MsPerHour);
  }

  /** The events on `date`'s day, in their original order. */
  function GetEventsForDate(events: seq<CalendarEvent>, date: Time): (r: seq<CalendarEvent>)
    requires forall e :: e in events ==> HasValidDaySpan(e)
    ensures IsSubsequence(r, events)
    ensures forall e :: e in r <==> e in events && Day(e.startDate) <= Day(date) <= Day(e.endDate)
    ensures forall e :: multiset(r)[e]
                        == if Day(e.startDate) <= Day(date) <= Day(e.endDate) then multiset(events)[e] else 0
  {
    var onDate := e => HasValidDaySpan(e) && IsEventOnDate(e, date);
    FilterCount(events, onDate);
    Filter(events, onDate)
  }

  /** `setTimeOnDate(date, hours, minutes)`: the same day at hours:minutes:00.000. */
  function SetTimeOnDate(date: Time, hours: int, minutes: int := 0): (r: Time)
    ensures 0 <= hours < 24 && 0 <= minutes < 60 ==>
      Day(r) == Day(date) && Hours(r) == hours && Minutes(r) == minutes
      && Seconds(r) == 0 && Milliseconds(r) == 0
  {
    SetHours(date, hours, minutes, 0, 0)
  }

  /** A range is valid when it ends strictly after it starts: it is never empty and never reversed. */
  predicate IsValidDateRange(startDate: Time, endDate: Time)
    ensures IsValidDateRange(startDate, endDate) ==> startDate != endDate && Day(startDate) <= Day(endDate)
    ensures IsValidDateRange(startDate, endDate) <==> !(endDate <= startDate)
  {
    endDate > startDate
  }
}
