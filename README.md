# Calendar widget core in Dafny

This project models the logic behind a month/week calendar widget:

- the date utilities that build the views' date grids;
- the event utilities that filter, sort, group, time and validate events;
- the hook that owns the event list;
- the hook that owns the calendar's UI state.

An instant is an integer count of milliseconds of local wall-clock time, and every day is 86,400,000 ms long. The date primitives the code calls work on the calendar day `Day(t) = t / 86400000` through a proleptic Gregorian calendar on day numbers, with day 0 = 1970-01-01, a Thursday. They are:

- the date-fns functions `startOfDay`, `endOfDay`, `addDays`;
- `startOfWeek` and `endOfWeek`, with `weekStartsOn` as a parameter;
- `startOfMonth`, `endOfMonth`, `isSameMonth`, `isWithinInterval`;
- the `Date` methods `setHours`, `getHours`, `getMinutes` and `getDay`.

Modules, one per file:

- `Civil` (civil.dfy): years, months and day numbers, and the round trip between day numbers and calendar dates.
- `DateFns` (date_fns.dfy): these primitives on instants.
- `Seqs` (seqs.dfy): order-preserving `filter` and the subsequence relation.
- `JsStrings` (js_strings.dfy):
  - `trim` with ECMAScript's set of white-space characters;
  - `length` counted in UTF-16 code units;
  - decimal rendering of integers, as in template literals.
- `CalendarTypes` (calendar_types.dfy): the `CalendarEvent` record, `Omit<CalendarEvent, 'id'>`, and `Partial<CalendarEvent>` (each key is an `Option`, and `None` means the key is absent). Also the view, the dialog mode and `CalendarState`.
- `DateUtils` (date_utils.dfy): src/utils/date.utils.ts.
- `EventUtils` (event_utils.dfy): src/utils/event.utils.ts.
- `UseEventManager` (event_manager.dfy): src/hooks/useEventManager.ts, as class `EventManager` over a `seq<CalendarEvent>` field.
- `UseCalendar` (use_calendar.dfy): src/hooks/useCalendar.ts, as class `Calendar` over a `CalendarState` field. Its invariant is that the dialog is open exactly when it has a mode.

The grid builders keep the source's loops: `getDaysInMonth`, `getCalendarGrid`, `getWeekDays` and `generateTimeSlots` are methods with `while`/`for` loops. Each is proved against the calendar functions. `validateEvent` and `groupEventsByDate` are also methods, proved against a specification function. The rest is pure and modelled as functions.

The contract of `GetCalendarGrid` fixes its result completely: the 42 midnights from the Sunday on or before the 1st of the month, `Midnights(GridStart(date), 42)`. So two calls with the same date give the same grid. `CalendarGridProperties` then proves what the month view relies on.

Calendar dates are computed day by day: `Civil.FromDayNumber` steps from 1970-01-01 with `NextDay` or `PreviousDay`. Any other way of computing them gives the same dates, because different valid dates have different day numbers (`Civil.DateUnique`). `Civil.DaysBeforeYearClosedForm` ties the year-by-year count of days to the usual closed form with leap days.

Two details of the code that the model keeps:

- `isMultiDayEvent` tests `startOfDay(end) > startOfDay(start)`. This is strict, so an event that ends on an earlier day than it starts is not multi-day. `EventUtils.IsMultiDayEvent` states the strict form.
- The week start, the 60 pixels per hour and the 30-pixel minimum height are hard-coded as Sunday, 60 and 30. The model has them as constants (`DateUtils.WeekStartsOn`, `HourHeight`, `MinEventHeight`).

## Model

| member | source | states |
|---|---|---|
| Civil.DaysInMonth | src/utils/date.utils.ts:43-55 | a month has 28 to 31 days; February has 29 exactly in leap years |
| Civil.DaysBeforeYearClosedForm | src/utils/date.utils.ts:44-45 | the year-by-year day count equals 365 days per year plus one per leap year (every 4th, except centuries not divisible by 400) |
| Civil.NextDay | src/utils/date.utils.ts:51 | the date after a valid date is valid and has the next day number |
| Civil.PreviousDay | src/utils/date.utils.ts:44-45 | the date before a valid date is valid and has the previous day number |
| Civil.FromDayNumber | src/utils/date.utils.ts:44-45 | every day number maps to a valid calendar date whose day number is the input |
| Civil.DateUnique | src/utils/date.utils.ts:44-45 | two valid dates with the same day number are the same date |
| Civil.FromToDayNumber | src/utils/date.utils.ts:44-45 | every valid calendar date is recovered from its day number (the other half of the round trip) |
| Civil.EpochIsNewYear1970 | src/utils/date.utils.ts:44-45 | day 0 is 1970-01-01 |
| Civil.FirstOfMonth | src/utils/date.utils.ts:44 | the first of the month is on or before the day |
| Civil.LastOfMonth | src/utils/date.utils.ts:45 | the last of the month is on or after the day and is the first of the month plus the month's length minus one |
| Civil.DayOfMonthAt | src/utils/date.utils.ts:43-55 | a day k days after the first of a month, and not after its last, is day k + 1 of that same year and month |
| Civil.SundayOnOrBefore | src/utils/date.utils.ts:62 | day n - weekday(n) is a Sunday |
| Civil.SameMonthSameFirst | src/utils/date.utils.ts:104 | two days share year and month exactly when their months start on the same day |
| Civil.SameMonthIsRange | src/utils/date.utils.ts:103-105 | two days share year and month exactly when one lies between the first and the last of the other's month |
| DateFns.TimeOfDay | src/utils/date.utils.ts:169-170 | the time of day lies in [0, 86400000) and recomposes the instant with its day |
| DateFns.Hours | src/utils/date.utils.ts:169-170 | `getHours` lies in 0..23 |
| DateFns.Minutes | src/utils/date.utils.ts:169-170 | `getMinutes` lies in 0..59 |
| DateFns.ClockFields | src/utils/date.utils.ts:169-170 | day, hours, minutes, seconds and milliseconds recompose the instant; minute of day = 60 * hours + minutes |
| DateFns.StartOfDay | src/utils/date.utils.ts:27-28 | startOfDay is a midnight on the same day, at or before the instant and less than a day before it |
| DateFns.EndOfDay | src/utils/date.utils.ts:183 | endOfDay is startOfDay plus 86399999 ms, on the same day |
| DateFns.AddDays | src/utils/date.utils.ts:51 | addDays moves the day by n and keeps the clock time |
| DateFns.SetHours | src/utils/date.utils.ts:137 | with in-range fields, setHours keeps the day and gives exactly those clock fields |
| DateFns.DayOfWeek | src/utils/date.utils.ts:62 | the weekday 0..6 (0 = Sunday) of the instant's calendar day, the offset by which `startOfWeek` with `weekStartsOn: 0` steps back |
| DateFns.StartOfWeek | src/utils/date.utils.ts:62 | startOfWeek is a midnight on the week-start weekday, 0 to 6 days before the instant |
| DateFns.EndOfWeek | src/utils/date.utils.ts:63 | endOfWeek is the last millisecond of the seventh day from startOfWeek |
| DateFns.SundayWeekBounds | src/utils/date.utils.ts:62-63 | with Sunday as week start, the week runs from day d - weekday(d) through the following Saturday |
| DateFns.StartOfMonth | src/utils/date.utils.ts:44 | startOfMonth is midnight on the first of the instant's month |
| DateFns.EndOfMonth | src/utils/date.utils.ts:45 | endOfMonth lies on the last day of the month and is that day's last millisecond |
| DateFns.IsSameMonth | src/utils/date.utils.ts:104 | same month exactly when both instants have the same startOfMonth |
| DateFns.IsWithinInterval | src/utils/date.utils.ts:185-186 | an instant within an interval lies on a day from the interval's start day to its end day |
| DateFns.SameMonthWithin | src/utils/date.utils.ts:103-105 | an instant shares t's month exactly when it lies between startOfMonth(t) and endOfMonth(t) |
| DateUtils.DaysBetween | src/utils/date.utils.ts:25-30 | the result is the difference of the calendar days, whatever the clock times |
| DateUtils.IsSameDayUtil | src/utils/date.utils.ts:33-35 | true exactly when both instants fall on the same calendar day |
| DateUtils.IsToday | src/utils/date.utils.ts:38-40 | true exactly when the instant lies within the day of the clock reading |
| DateUtils.Midnights | src/utils/date.utils.ts:48-52 | n midnights whose i-th is the midnight of day s + i |
| DateUtils.GetDaysInMonth | src/utils/date.utils.ts:43-55 | returns the midnights of the month's days from the 1st, as many as the month is long, and the i-th is day i + 1 of the date's year and month |
| DateUtils.MonthDates | src/utils/date.utils.ts:43-55 | the midnights from the first of a month are the 1st, 2nd, … of that year and month |
| DateUtils.FebruaryLength | src/utils/date.utils.ts:43-55 | a February has 29 days in a leap year and 28 otherwise, so getDaysInMonth returns that many |
| DateUtils.WeekAlignedSpan | src/utils/date.utils.ts:62-80 | a month widened to whole Sunday-to-Saturday weeks spans 28, 35 or 42 days, so padding never overshoots 42 |
| DateUtils.GridStart | src/utils/date.utils.ts:62 | the first grid day is the first of the month minus its weekday |
| DateUtils.GridSpan | src/utils/date.utils.ts:59-63 | startOfWeek of the 1st is the midnight of GridStart; endOfWeek of the month's end is the last millisecond of a day at most 41 days later |
| DateUtils.GetCalendarGrid | src/utils/date.utils.ts:59-80 | the grid is exactly the 42 midnights from GridStart: the filling loop stops at the last Saturday and the padding loop runs on to 42 |
| DateUtils.ConsecutiveMidnights | src/utils/date.utils.ts:67-77 | consecutive midnights step by addDays(_, 1), increase strictly and contain the start of every day they span |
| DateUtils.GridStartsOnSunday | src/utils/date.utils.ts:62 | the grid starts on a Sunday, at or before startOfMonth and less than a week before it |
| DateUtils.MonthWithinGrid | src/utils/date.utils.ts:59-80 | every day of the month lies among the 42 grid days |
| DateUtils.CalendarGridProperties | src/utils/date.utils.ts:59-80 | 42 strictly increasing consecutive midnights; the first is the Sunday on or before the 1st; every day of the month appears |
| DateUtils.GetWeekDays | src/utils/date.utils.ts:85-98 | 7 consecutive days: the first is the Sunday on or before the date, and the date's own day is among them |
| DateUtils.IsCurrentMonth | src/utils/date.utils.ts:103-105 | true exactly when the date lies between startOfMonth and endOfMonth of the displayed date |
| DateUtils.GenerateTimeSlots | src/utils/date.utils.ts:131-142 | 24 instants on the date's day; slot h is at exactly h:00:00.000 |
| DateUtils.IsEventInTimeSlot | src/utils/date.utils.ts:147-158 | for a positive-length event and slot: true iff event start < slot end and slot start < event end, so touching a boundary does not count |
| DateUtils.GetEventPosition | src/utils/date.utils.ts:163-176 | top is the start's minute of day; height is the difference of the minutes of day, but never below 30 |
| DateUtils.EventPositionExamples | src/utils/date.utils.ts:163-176 | 09:00-10:30 gives {540, 90}; 09:00-09:05 gives {540, 30} |
| DateUtils.IsEventOnDate | src/utils/date.utils.ts:181-188 | the event is on the date iff the date's day lies between the event's start day and end day, inclusive |
| DateUtils.ThreeDayEventExample | src/utils/date.utils.ts:181-188 | an event from 09:00 on day d to 17:00 on day d + 2 shows on d, d + 1 and d + 2, and not on d - 1 or d + 3 |
| DateUtils.GetEventsForDate | src/utils/date.utils.ts:193-198 | an order-preserving subsequence holding every occurrence of each event whose day span contains the date and no other event; the same filter is `filterEventsByDate` in src/utils/event.utils.ts:17-24 |
| DateUtils.IsValidDateRange | src/utils/date.utils.ts:212-214 | valid exactly when the end is not at or before the start, so a valid range is never empty and its start day is not after its end day |
| DateUtils.SetTimeOnDate | src/utils/date.utils.ts:203-207 | for in-range hours and minutes: the same day at exactly hours:minutes:00.000 |
| EventUtils.InsertByStart | src/utils/event.utils.ts:10-12 | insertion adds exactly one copy of the event and keeps a sorted list sorted |
| EventUtils.InsertByStartStable | src/utils/event.utils.ts:10-12 | inserting into a sorted list puts the event in front of the events with its own start date |
| EventUtils.SortEventsByStartDate | src/utils/event.utils.ts:10-12 | the result is sorted by startDate and is a permutation (same multiset) of the input |
| EventUtils.SortEventsByStartDateStable | src/utils/event.utils.ts:10-12 | events with equal start dates keep their input order (Array.prototype.sort is stable) |
| EventUtils.InDateRange | src/utils/event.utils.ts:37-46 | for an event with a valid day span and an ordered range: kept iff its start day is not after the range's end day and its end day is not before the range's start day |
| EventUtils.FilterEventsByDateRange | src/utils/event.utils.ts:29-47 | an order-preserving subsequence; under the same conditions it keeps every occurrence of the events in range and none of the others |
| EventUtils.GetOverlappingEvents | src/utils/event.utils.ts:52-60 | an order-preserving subsequence; for a positive-length slot, every occurrence of a positive-length event is kept iff it overlaps the slot |
| EventUtils.GetEventDuration | src/utils/event.utils.ts:65-67 | the whole minutes m with m * 60000 <= end - start < (m + 1) * 60000, i.e. floor division |
| JsStrings.NatToStringRoundTrip | src/utils/event.utils.ts:76 | the decimal digits of a number, as a template string writes them, read back as that number |
| JsStrings.TrimEmpty | src/utils/event.utils.ts:93 | a string trims to nothing exactly when every character of it is white space |
| JsStrings.TrimNoOuterWhiteSpace | src/utils/event.utils.ts:93 | what `trim` keeps neither starts nor ends with white space |
| JsStrings.TrimIsSegment | src/utils/event.utils.ts:93 | `trim` keeps the contiguous part of the string that starts after its leading white space |
| JsStrings.TrimDropsTrailing | src/utils/event.utils.ts:93 | everything after the kept part is white space |
| JsStrings.LeadingWhiteSpace | src/utils/event.utils.ts:93 | the count of leading white-space characters: all before it are white space, the one at it is not |
| JsStrings.Utf16Length | src/utils/event.utils.ts:97-101 | `length` lies between the number of characters and twice that |
| JsStrings.Utf16LengthBmp | src/utils/event.utils.ts:97-101 | `length` equals the number of characters exactly when all of them lie in the Basic Multilingual Plane |
| JsStrings.IntToString | src/utils/event.utils.ts:76 | a minus sign exactly for negative numbers, followed by decimal digits with no leading zeros that read back as the magnitude |
| JsStrings.NumeralIsNatToString | src/utils/event.utils.ts:76 | every digit string without leading zeros is the rendering of its value |
| EventUtils.FormatMinutesExamples | src/utils/event.utils.ts:72-87 | 45 gives "45m", 90 gives "1h 30m", 120 gives "2h" |
| EventUtils.ParseMinutesOnly | src/utils/event.utils.ts:75-76 | "Nm" reads back as N minutes |
| EventUtils.ParseWholeHours | src/utils/event.utils.ts:82-84 | "Nh" reads back as 60 N minutes |
| EventUtils.ParseHoursAndMinutes | src/utils/event.utils.ts:86 | "Nh Mm" reads back as 60 N + M minutes |
| EventUtils.FormatMinutesRoundTrip | src/utils/event.utils.ts:72-87 | the display of any non-negative minute count reads back, through the "Nm" / "Nh" / "Nh Nm" grammar, as that count |
| EventUtils.FormatMinutesCanonical | src/utils/event.utils.ts:72-87 | every non-negative count is shown canonically: "Nm" below 60, "Nh" for whole hours, "Nh Mm" with M in 1..59, numbers without leading zeros |
| EventUtils.CanonicalIsFormat | src/utils/event.utils.ts:72-87 | every canonical display reads back as some count and is exactly the display of that count |
| EventUtils.CanonicalDurationUnique | src/utils/event.utils.ts:72-87 | two canonical displays that read back as the same count are the same string, so each count has one display |
| EventUtils.FormatEventDuration | src/utils/event.utils.ts:72-87 | for an event that does not end before it starts, the display is canonical and reads back as its duration in minutes, so it is the one display of that duration |
| EventUtils.ErrorsUpToContents | src/utils/event.utils.ts:90-118 | the messages of the first n checks are exactly those of the failed ones |
| EventUtils.ErrorsUpToOrdered | src/utils/event.utils.ts:90-118 | the messages of the first n checks come in check order, each at most once |
| EventUtils.ValidateEvent | src/utils/event.utils.ts:90-118 | the six checks, none short-circuited, produce exactly the ordered message list of the specification function |
| EventUtils.ValidationEmptyIffValid | src/utils/event.utils.ts:90-118 | no messages iff: the title has a non-white-space character and is at most 100 long; the description is absent or at most 500 long; both dates are present; end > start |
| EventUtils.ValidationReports | src/utils/event.utils.ts:90-118 | each message is reported exactly when its check fails |
| EventUtils.ValidationOrdered | src/utils/event.utils.ts:93-116 | messages come in the fixed order title-required, title-length, description-length, start-missing, end-missing, end-after-start |
| EventUtils.DateOrderMessage | src/utils/event.utils.ts:113-115 | with both dates given, "End date must be after start date" appears exactly when the range is not valid (`isValidDateRange`, src/utils/date.utils.ts:212-214) |
| EventUtils.MissingTitleNotTooLong | src/utils/event.utils.ts:93-99 | an absent or empty title gets "Title is required" but never the length message |
| EventUtils.LongBlankTitleBothErrors | src/utils/event.utils.ts:93-99 | a title of 101 spaces gets both title messages |
| EventUtils.EmptyTitleReversedExample | src/utils/event.utils.ts:90-118 | an empty title with the end before the start gives exactly the title message, then the date-order one |
| EventUtils.CreateDefaultEvent | src/utils/event.utils.ts:123-138 | on the date's day from 09:00:00.000 to 10:00:00.000; empty title and description; color #3b82f6; category Other |
| EventUtils.OnlyTitleMissing | src/utils/event.utils.ts:90-118 | an empty title and description with start before end fail only the title check |
| EventUtils.DefaultEventNeedsTitle | src/utils/event.utils.ts:123-138 | validating the default event gives exactly ["Title is required"] |
| EventUtils.StartDays | src/utils/event.utils.ts:143-153 | the group keys are the events' start days, each once, and no others |
| EventUtils.StartDaysSnoc | src/utils/event.utils.ts:146-149 | one more event adds its start day as the last key, unless that day is already a key |
| EventUtils.FilterSnocDay | src/utils/event.utils.ts:146-150 | one more event joins the group of day k exactly when it starts on day k |
| EventUtils.GroupSnoc | src/utils/event.utils.ts:146-150 | adding one event to its day's group, with a new key last, keeps keys and groups exact |
| EventUtils.GroupSizesSum | src/utils/event.utils.ts:143-153 | every event is in exactly one group, so the group sizes add up to the number of events |
| EventUtils.GroupEventsByDate | src/utils/event.utils.ts:143-153 | the keys are the start days in insertion order; each group is the order-preserving filter of the events starting that day; sizes sum to the input length |
| EventUtils.IsMultiDayEvent | src/utils/event.utils.ts:158-162 | true iff the end's calendar day is strictly after the start's |
| EventUtils.MultiDayShowsNextDay | src/utils/event.utils.ts:158-162 | an event is multi-day exactly when it also shows on the day after it starts |
| Seqs.FilterCount | src/utils/event.utils.ts:17-18 | `filter` keeps every occurrence of an element that passes and none of one that fails |
| UseEventManager.Merge | src/hooks/useEventManager.ts:45 | every key present in the update replaces the event's value; absent keys keep it |
| UseEventManager.MergeLaws | src/hooks/useEventManager.ts:45 | merging an empty update changes nothing; merging the same update twice is merging it once |
| UseEventManager.MergeTwice | src/hooks/useEventManager.ts:45 | two updates in a row are one update with the keys of both, the later ones winning |
| UseEventManager.UpdateById | src/hooks/useEventManager.ts:43-47 | same length and order; events with the id are merged with the update; all others are unchanged |
| UseEventManager.RemoveId | src/hooks/useEventManager.ts:55 | an order-preserving subsequence holding every occurrence of each event with another id, and no event with the id |
| UseEventManager.RemoveIdLaws | src/hooks/useEventManager.ts:53-59 | deleting twice is deleting once; deleting an unknown id changes nothing |
| UseEventManager.FindById | src/hooks/useEventManager.ts:61-66 | none iff no event has the id; otherwise the first event with the id |
| UseEventManager.FindAfterRemove | src/hooks/useEventManager.ts:53-66 | after a delete the id is not found |
| UseEventManager.FindAfterAdd | src/hooks/useEventManager.ts:28-39 | an event added under an unused id is what that id finds |
| UseEventManager.FindAfterUpdate | src/hooks/useEventManager.ts:41-66 | an update that keeps ids: the id now finds the merged form of the event it found before |
| UseEventManager.EventManager.constructor | src/hooks/useEventManager.ts:26 | the list starts as the initial events |
| UseEventManager.EventManager.AddEvent | src/hooks/useEventManager.ts:28-39 | appends exactly the event with the fresh id; earlier events unchanged |
| UseEventManager.EventManager.GetEventById | src/hooks/useEventManager.ts:61-66 | a found event is in the list and has the id; nothing is found exactly when no event has the id (it is `FindById` of the list, the first such event) |
| UseEventManager.EventManager.UpdateEvent | src/hooks/useEventManager.ts:41-51 | the list becomes UpdateById of the old list |
| UseEventManager.EventManager.DeleteEvent | src/hooks/useEventManager.ts:53-59 | the list becomes RemoveId of the old list, and the id is no longer found |
| UseCalendar.Calendar.constructor | src/hooks/useCalendar.ts:21-28 | the given date and view; nothing selected; dialog closed with no mode |
| UseCalendar.Calendar.GoToNextMonth | src/hooks/useCalendar.ts:30-35 | only currentDate changes, to the month shift of the old one; invariant kept |
| UseCalendar.Calendar.GoToPreviousMonth | src/hooks/useCalendar.ts:37-42 | only currentDate changes, to the backward month shift of the old one; invariant kept |
| UseCalendar.Calendar.GoToToday | src/hooks/useCalendar.ts:44-49 | only currentDate changes, to the clock reading; invariant kept |
| UseCalendar.Calendar.SetView | src/hooks/useCalendar.ts:51-56 | only view changes; invariant kept |
| UseCalendar.Calendar.SetSelectedDate | src/hooks/useCalendar.ts:58-63 | only selectedDate changes; invariant kept |
| UseCalendar.Calendar.SetSelectedEvent | src/hooks/useCalendar.ts:65-70 | only selectedEvent changes; invariant kept |
| UseCalendar.Calendar.OpenCreateModal | src/hooks/useCalendar.ts:72-80 | selects the date, clears the selected event, opens the dialog in create mode; currentDate and view unchanged; invariant established |
| UseCalendar.Calendar.OpenEditModal | src/hooks/useCalendar.ts:82-89 | selects the event and opens the dialog in edit mode; selectedDate, currentDate and view unchanged; invariant established |
| UseCalendar.Calendar.CloseModal | src/hooks/useCalendar.ts:91-97 | closes the dialog and clears its mode; both selections, currentDate and view unchanged; invariant established |

## Left out

- Time zones and daylight saving: every day is exactly 86,400,000 ms of local wall-clock time.
- Invalid dates (`NaN` time values) and `Date` object identity. Instants are plain integers, so the copies made with `new Date(current)` are values.
- `formatDate` and date-fns `format` are a foreign formatting library, and are not part of this model.
- The `toISOString` group keys of `groupEventsByDate` are replaced by day numbers. A JavaScript `Map` is modelled as its key order plus a Dafny `map`.
- `generateEventId` reads `Date.now` and `Math.random`, so the fresh id is a parameter of `UseEventManager.EventManager.AddEvent`.
- `getNextMonth` / `getPreviousMonth` use `addMonths`'s day-clamping rule. They are passed to `UseCalendar.Calendar.GoToNextMonth` / `GoToPreviousMonth` as functions.
- `goToToday` reads the clock, so the clock reading is a parameter.
- The `onEventAdd`, `onEventUpdate` and `onEventDelete` callbacks are foreign calls with no effect on the list.
- React's `useState` / `useCallback` are not modelled: the re-rendering and memoisation they do are not modelled. Each hook's state cell is a class field.
- `Partial<CalendarEvent>` keys that are present with the value `undefined` are not modelled: a key is either absent or has a value.
- `Array.prototype.sort` is modelled as the stable ordering ES2019 requires, built by insertion. The engine's actual algorithm is not modelled.
- DateUtils.IsEventOnDate: requires that `startOfDay(start) <= endOfDay(end)`. date-fns `isWithinInterval` throws on a reversed interval in version 2 and accepts it in version 3, and that version-specific behaviour is not modelled.
- DateUtils.GetEventsForDate: requires every event to satisfy the same condition. It is stated for `CalendarEvent` rather than for any record with `startDate` and `endDate`.
- EventUtils.FilterEventsByDateRange: the exact characterisation is stated only for events with a non-reversed day span and for ordered ranges. Otherwise the contract only says the result is a subsequence.
- EventUtils.GetOverlappingEvents: the overlap characterisation is stated only for positive-length events and slots.
- EventUtils.FormatEventDuration: the round trip is stated for non-negative durations only. A reversed event is rendered as "-Nm", which the contract does not describe.
- DateUtils.GetEventPosition: computes `top` and `height` in exact whole minutes. The source computes `(hours + minutes / 60) * 60` in IEEE-754 doubles, which can be one ulp off a whole number (31.000000000000004 for 00:31), so the model does not capture that rounding error.
- The default arguments of the hooks are not modelled: `initialDate = new Date()` and `initialView = 'month'` of `useCalendar`, and `initialEvents = []` of `useEventManager`. `UseCalendar.Calendar.constructor` and `UseEventManager.EventManager.constructor` take those values as explicit parameters.
- `isToday` reads the clock through `new Date()`, so `DateUtils.IsToday` takes the clock reading as a parameter.
- JavaScript strings are sequences of UTF-16 code units, while here a character is a Unicode scalar value, so lone surrogates cannot be represented. `length` counts a character above U+FFFF as two.
- The presentation code (the `.tsx` components, the error-to-field mapping of the event dialog, and the week view's hour-row filter and height cap) is not part of this model.
