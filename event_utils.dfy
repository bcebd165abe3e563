/**
  Operations on lists of calendar events (src/utils/event.utils.ts):
  sorting, range and slot filters, durations and their display,
  validation before saving, the default new event, grouping by start day
  and the multi-day test.
*/
module EventUtils {
  import opened DateFns
  import opened Seqs
  import opened JsStrings
  import opened CalendarTypes
  import opened DateUtils

  // ---------------------------------------------------------------------
  // Sorting by start date
  // ---------------------------------------------------------------------

  predicate SortedByStart(s: seq<CalendarEvent>) {
    forall i, j :: 0 <= i < j < |s| ==> s[i].startDate <= s[j].startDate
  }

  /** The test "starts at instant t", used to compare runs of equal keys. */
  function StartsAt(t: Time): CalendarEvent -> bool {
    (e: CalendarEvent) => e.startDate == t
  }

  /** x placed in front of the first element of s that does not start before it. */
  function InsertByStart(x: CalendarEvent, s: seq<CalendarEvent>): (r: seq<CalendarEvent>)
    ensures multiset(r) == multiset(s) + multiset{x}
    ensures forall e :: e in r <==> e == x || e in s
    ensures SortedByStart(s) ==> SortedByStart(r)
  {
    if s == [] || x.startDate <= s[0].startDate then [x] + s
    else
      var rest := InsertByStart(x, s[1..]);
      assert s == [s[0]] + s[1..];
      InsertAfterHeadSorted(s[0], rest, x, s[1..]);
      [s[0]] + rest
  }

  lemma InsertAfterHeadSorted(h: CalendarEvent, rest: seq<CalendarEvent>, x: CalendarEvent, tail: seq<CalendarEvent>)
    requires forall e :: e in rest <==> e == x || e in tail
    requires h.startDate < x.startDate
    requires SortedByStart([h] + tail) ==> SortedByStart(rest)
    ensures SortedByStart([h] + tail) ==> SortedByStart([h] + rest)
  {
    if SortedByStart([h] + tail) {
      assert ([h] + tail)[0] == h;
      forall e | e in rest ensures h.startDate <= e.startDate {
        if e != x {
          var k :| 0 <= k < |tail| && tail[k] == e;
          assert ([h] + tail)[k + 1] == e;
        }
      }
      forall i, j | 0 <= i < j < |[h] + rest| ensures ([h] + rest)[i].startDate <= ([h] + rest)[j].startDate {
        if i == 0 {
          assert ([h] + rest)[j] == rest[j - 1];
          assert rest[j - 1] in rest;
        } else {
          assert ([h] + rest)[i] == rest[i - 1] && ([h] + rest)[j] == rest[j - 1];
        }
      }
    }
  }

  /**
    `[...events].sort((a, b) => a.startDate - b.startDate)`: a new array;
    `Array.prototype.sort` is stable, so events with equal start dates keep
    their input order.
  */
  function SortEventsByStartDate(events: seq<CalendarEvent>): (r: seq<CalendarEvent>)
    ensures SortedByStart(r)
    ensures multiset(r) == multiset(events)
  {
    if events == [] then []
    else
      assert events == [events[0]] + events[1..];
      InsertByStart(events[0], SortEventsByStartDate(events[1..]))
  }

  /** Inserting x into a sorted list puts it in front of the events with its own start date. */
  lemma {:induction false} InsertByStartStable(x: CalendarEvent, s: seq<CalendarEvent>, t: Time)
    requires SortedByStart(s)
    ensures Filter(InsertByStart(x, s), StartsAt(t)) == Filter([x] + s, StartsAt(t))
  {
    if s != [] && x.startDate > s[0].startDate {
      var rest := InsertByStart(x, s[1..]);
      InsertByStartStable(x, s[1..], t);
      assert ([s[0]] + rest)[1..] == rest;
      assert ([x] + s[1..])[1..] == s[1..];
      assert ([x] + s)[1..] == s;
      assert s == [s[0]] + s[1..];
      if s[0].startDate == t {
        // then x and every later event start after t
        assert x.startDate != t;
        assert Filter(rest, StartsAt(t)) == Filter([x] + s[1..], StartsAt(t)) == Filter(s[1..], StartsAt(t));
      } else {
        assert Filter(rest, StartsAt(t)) == Filter([x] + s[1..], StartsAt(t));
      }
    }
  }

  /** Stability: for every start instant, the events starting then come out in input order. */
  lemma {:induction false} SortEventsByStartDateStable(events: seq<CalendarEvent>, t: Time)
    ensures Filter(SortEventsByStartDate(events), StartsAt(t)) == Filter(events, StartsAt(t))
  {
    if events != [] {
      var tail := SortEventsByStartDate(events[1..]);
      SortEventsByStartDateStable(events[1..], t);
      InsertByStartStable(events[0], tail, t);
      FilterAppend([events[0]], tail, StartsAt(t));
      FilterAppend([events[0]], events[1..], StartsAt(t));
      assert [events[0]] + events[1..] == events;
    }
  }

  // ---------------------------------------------------------------------
  // Filters
  // ---------------------------------------------------------------------

  /**
    The whole days of the event, [startOfDay(start), endOfDay(end)], meet the
    whole days of the range, [startOfDay(rangeStart), endOfDay(rangeEnd)]: the
    event begins in the range, ends in it, or covers it.
  */
  predicate InDateRange(event: CalendarEvent, startDate: Time, endDate: Time)
    ensures HasValidDaySpan(event) && Day(startDate) <= Day(endDate) ==>
      (InDateRange(event, startDate, endDate) <==>
         Day(event.startDate) <= Day(endDate) && Day(event.endDate) >= Day(startDate))
  {
    var rangeStart := StartOfDay(startDate);
    var rangeEnd := EndOfDay(endDate);
    var eventStart := StartOfDay(event.startDate);
    var eventEnd := EndOfDay(event.endDate);
    (eventStart >= rangeStart && eventStart <= rangeEnd)
    || (eventEnd >= rangeStart && eventEnd <= rangeEnd)
    || (eventStart <= rangeStart && eventEnd >= rangeEnd)
  }

  /** The events whose days meet the days from `startDate` to `endDate`, in input order. */
  function FilterEventsByDateRange(events: seq<CalendarEvent>, startDate: Time, endDate: Time)
    : (r: seq<CalendarEvent>)
    ensures IsSubsequence(r, events)
    ensures Day(startDate) <= Day(endDate) ==>
      forall e :: HasValidDaySpan(e) ==>
        (e in r <==> e in events && Day(e.startDate) <= Day(endDate) && Day(e.endDate) >= Day(startDate))
    ensures Day(startDate) <= Day(endDate) ==>
      forall e :: HasValidDaySpan(e) ==>
        multiset(r)[e] == if Day(e.startDate) <= Day(endDate) && Day(e.endDate) >= Day(startDate)
                          then multiset(events)[e] else 0
  {
    var inRange := e => InDateRange(e, startDate, endDate);
    FilterCount(events, inRange);
    Filter(events, inRange)
  }

  /** The events overlapping the slot [slotStart, slotEnd), in input order. */
  function GetOverlappingEvents(events: seq<CalendarEvent>, slotStart: Time, slotEnd: Time)
    : (r: seq<CalendarEvent>)
    ensures IsSubsequence(r, events)
    ensures slotStart < slotEnd ==>
      forall e: CalendarEvent :: e.startDate < e.endDate ==>
        (e in r <==> e in events && e.startDate < slotEnd && slotStart < e.endDate)
    ensures slotStart < slotEnd ==>
      forall e: CalendarEvent :: e.startDate < e.endDate ==>
        multiset(r)[e] == if e.startDate < slotEnd && slotStart < e.endDate then multiset(events)[e] else 0
  {
    var inSlot := (e: CalendarEvent) => IsEventInTimeSlot(e.startDate, e.endDate, slotStart, slotEnd);
    FilterCount(events, inSlot);
    Filter(events, inSlot)
  }

  // ---------------------------------------------------------------------
  // Durations
  // ---------------------------------------------------------------------

  /** Whole minutes from start to end, rounded down (negative for a reversed event). */
  function GetEventDuration(event: CalendarEvent): (m: int)
    ensures m * MsPerMinute <= event.endDate - event.startDate < (m + 1) * MsPerMinute
  {
    (event.endDate - event.startDate) / MsPerMinute
  }

  /**
    The display form of a number of minutes: "45m", "2h" or "1h 30m".  Hours
    are shown from 60 minutes on, and the display ends in "h" exactly for
    whole hours.
  */
  function FormatMinutes(minutes: int): (s: string)
  {
    if minutes < 60 then IntToString(minutes) + "m"
    else
      var hours := minutes / 60;
      var remainingMinutes := minutes % 60;
      if remainingMinutes == 0 then NatToString(hours) + "h"
      else NatToString(hours) + "h " + NatToString(remainingMinutes) + "m"
  }

  /**
    `formatEventDuration`: a non-negative duration is shown in the one
    canonical form that reads back as its whole minutes.
  */
  function FormatEventDuration(event: CalendarEvent): (s: string)
    ensures event.startDate <= event.endDate ==> ParseDuration(s) == Some(GetEventDuration(event))
    ensures event.startDate <= event.endDate ==> IsCanonicalDuration(s)
  {
    var minutes := GetEventDuration(event);
    if minutes >= 0 then
      FormatMinutesRoundTrip(minutes);
      FormatMinutesCanonical(minutes);
      FormatMinutes(minutes)
    else
      FormatMinutes(minutes)
  }

  lemma FormatMinutesExamples()
    ensures FormatMinutes(45) == "45m"
    ensures FormatMinutes(90) == "1h 30m"
    ensures FormatMinutes(120) == "2h"
  {
    assert NatToString(45) == NatToString(4) + [DigitChar(5)];
    assert NatToString(30) == NatToString(3) + [DigitChar(0)];
  }

  predicate AllDigits(s: string) {
    forall i :: 0 <= i < |s| ==> IsDigit(s[i])
  }

  /** Position of the first occurrence of c in s. */
  function IndexOf(s: string, c: char): (r: Option<nat>)
    ensures r.Some? ==> r.value < |s| && s[r.value] == c && c !in s[..r.value]
    ensures r.None? ==> c !in s
  {
    if s == [] then None
    else if s[0] == c then Some(0)
    else
      match IndexOf(s[1..], c)
      case None => None
      case Some(k) =>
        assert s[..k + 1] == [s[0]] + s[1..][..k];
        Some(k + 1)
  }

  /** A count of digits followed by `unit`, such as "45m" or "2h". */
  function ParseAmount(s: string, unit: char): Option<int> {
    if |s| >= 2 && s[|s| - 1] == unit && AllDigits(s[..|s| - 1]) then Some(DigitsValue(s[..|s| - 1]))
    else None
  }

  /** Reads a displayed duration back as minutes: "Nm", "Nh" or "Nh Nm". */
  function ParseDuration(s: string): Option<int> {
    match IndexOf(s, ' ')
    case Some(k) =>
      (match (ParseAmount(s[..k], 'h'), ParseAmount(s[k + 1..], 'm'))
       case (Some(h), Some(m)) => Some(60 * h + m)
       case _ => None)
    case None =>
      match ParseAmount(s, 'h')
      case Some(h) => Some(60 * h)
      case None => ParseAmount(s, 'm')
  }

  lemma ParseAmountOf(n: nat, unit: char)
    requires !IsDigit(unit)
    ensures ParseAmount(NatToString(n) + [unit], unit) == Some(n)
  {
    var s := NatToString(n) + [unit];
    assert s[..|s| - 1] == NatToString(n);
    NatToStringRoundTrip(n);
  }

  /** A number followed by a unit letter contains no space. */
  lemma NoSpaceIn(n: nat, unit: char)
    requires unit != ' '
    ensures ' ' !in NatToString(n) + [unit]
  {
    var s := NatToString(n) + [unit];
    forall i | 0 <= i < |s| ensures s[i] != ' ' {
      if i < |s| - 1 {
        assert s[i] == NatToString(n)[i];
      }
    }
  }

  /** The first space of a + " " + b is the one after a, when a has none. */
  lemma {:induction false} IndexOfJoin(a: string, b: string)
    requires ' ' !in a
    ensures IndexOf(a + [' '] + b, ' ') == Some(|a|)
  {
    if a != [] {
      var s := a + [' '] + b;
      assert s[0] == a[0] && s[1..] == a[1..] + [' '] + b;
      IndexOfJoin(a[1..], b);
    }
  }

  /** "Nm" reads back as N minutes. */
  lemma ParseMinutesOnly(m: nat)
    ensures ParseDuration(NatToString(m) + "m") == Some(m)
  {
    NoSpaceIn(m, 'm');
    ParseAmountOf(m, 'm');
  }

  /** "Nh" reads back as 60 N minutes. */
  lemma ParseWholeHours(h: nat)
    ensures ParseDuration(NatToString(h) + "h") == Some(60 * h)
  {
    NoSpaceIn(h, 'h');
    ParseAmountOf(h, 'h');
  }

  /** "Nh Mm" reads back as 60 N + M minutes. */
  lemma ParseHoursAndMinutes(h: nat, m: nat)
    ensures ParseDuration(NatToString(h) + "h " + NatToString(m) + "m") == Some(60 * h + m)
  {
    JoinAtSpace(NatToString(h), NatToString(m));
    NoSpaceIn(h, 'h');
    ParseAmountOf(h, 'h');
    ParseAmountOf(m, 'm');
    ParseSplitAt(NatToString(h) + ['h'], NatToString(m) + ['m'], h, m);
  }

  /** x + "h " + y + "m" is x + "h" and y + "m" around one space. */
  lemma JoinAtSpace(x: string, y: string)
    ensures x + "h " + y + "m" == (x + ['h']) + [' '] + (y + ['m'])
  {
  }

  /** A space-free "Nh" and an "Mm" around one space read back as 60 N + M. */
  lemma ParseSplitAt(a: string, b: string, h: int, m: int)
    requires ' ' !in a
    requires ParseAmount(a, 'h') == Some(h) && ParseAmount(b, 'm') == Some(m)
    ensures ParseDuration(a + [' '] + b) == Some(60 * h + m)
  {
    var s := a + [' '] + b;
    IndexOfJoin(a, b);
    assert s[..|a|] == a && s[|a| + 1..] == b;
  }

  /** Every duration display that is not negative reads back as the minutes it shows. */
  lemma FormatMinutesRoundTrip(minutes: nat)
    ensures ParseDuration(FormatMinutes(minutes)) == Some(minutes)
  {
    if minutes < 60 {
      assert FormatMinutes(minutes) == NatToString(minutes) + "m";
      ParseMinutesOnly(minutes);
    } else {
      var h, r := minutes / 60, minutes % 60;
      assert minutes == 60 * h + r;
      if r == 0 {
        assert FormatMinutes(minutes) == NatToString(h) + "h";
        ParseWholeHours(h);
      } else {
        assert FormatMinutes(minutes) == NatToString(h) + "h " + NatToString(r) + "m";
        ParseHoursAndMinutes(h, r);
      }
    }
  }

  /** s is a numeral followed by the letter `unit`. */
  predicate IsAmount(s: string, unit: char) {
    |s| >= 2 && s[|s| - 1] == unit && IsNumeral(s[..|s| - 1])
  }

  /** The number written in front of the unit letter. */
  function AmountValue(s: string): nat
    requires |s| >= 1 && IsNumeral(s[..|s| - 1])
  {
    DigitsValue(s[..|s| - 1])
  }

  /**
    The displays a non-negative duration can have: "Nm" with N below 60,
    "Nh" with N at least 1, and "Nh Mm" with N at least 1 and M in 1..59,
    every number written without leading zeros.
  */
  predicate IsCanonicalDuration(s: string) {
    match IndexOf(s, ' ')
    case Some(k) =>
      IsAmount(s[..k], 'h') && IsAmount(s[k + 1..], 'm')
      && AmountValue(s[..k]) >= 1 && 1 <= AmountValue(s[k + 1..]) <= 59
    case None =>
      (IsAmount(s, 'h') && AmountValue(s) >= 1) || (IsAmount(s, 'm') && AmountValue(s) <= 59)
  }

  /** A number followed by its unit letter is an amount of that number. */
  lemma AmountOf(n: nat, unit: char)
    requires !IsDigit(unit)
    ensures IsAmount(NatToString(n) + [unit], unit)
    ensures AmountValue(NatToString(n) + [unit]) == n
  {
    var s := NatToString(n) + [unit];
    assert s[..|s| - 1] == NatToString(n);
    NatToStringRoundTrip(n);
  }

  /** An amount is the rendering of its number followed by the unit, and parses as that number. */
  lemma AmountIsRendering(s: string, unit: char)
    requires IsAmount(s, unit)
    ensures s == NatToString(AmountValue(s)) + [unit]
    ensures ParseAmount(s, unit) == Some(AmountValue(s))
  {
    NumeralIsNatToString(s[..|s| - 1]);
    assert s == s[..|s| - 1] + [s[|s| - 1]];
  }

  /** "Nm" is canonical for N below 60. */
  lemma CanonicalMinutesOnly(m: nat)
    requires m <= 59
    ensures IsCanonicalDuration(NatToString(m) + "m")
  {
    NoSpaceIn(m, 'm');
    AmountOf(m, 'm');
  }

  /** "Nh" is canonical for N at least 1. */
  lemma CanonicalWholeHours(h: nat)
    requires h >= 1
    ensures IsCanonicalDuration(NatToString(h) + "h")
  {
    NoSpaceIn(h, 'h');
    AmountOf(h, 'h');
  }

  /** "Nh Mm" is canonical for N at least 1 and M in 1..59. */
  lemma CanonicalHoursAndMinutes(h: nat, m: nat)
    requires h >= 1 && 1 <= m <= 59
    ensures IsCanonicalDuration(NatToString(h) + "h " + NatToString(m) + "m")
  {
    JoinAtSpace(NatToString(h), NatToString(m));
    NoSpaceIn(h, 'h');
    AmountOf(h, 'h');
    AmountOf(m, 'm');
    CanonicalSpaced(NatToString(h) + ['h'], NatToString(m) + ['m']);
  }

  /** A space-free hour amount and a minute amount in range, around one space, are canonical. */
  lemma CanonicalSpaced(a: string, b: string)
    requires ' ' !in a
    requires IsAmount(a, 'h') && IsAmount(b, 'm')
    requires AmountValue(a) >= 1 && 1 <= AmountValue(b) <= 59
    ensures IsCanonicalDuration(a + [' '] + b)
  {
    var s := a + [' '] + b;
    IndexOfJoin(a, b);
    assert s[..|a|] == a && s[|a| + 1..] == b;
  }

  /** Every non-negative minute count is displayed in canonical form. */
  lemma FormatMinutesCanonical(minutes: nat)
    ensures IsCanonicalDuration(FormatMinutes(minutes))
  {
    if minutes < 60 {
      assert FormatMinutes(minutes) == NatToString(minutes) + "m";
      CanonicalMinutesOnly(minutes);
    } else {
      var h, r := minutes / 60, minutes % 60;
      if r == 0 {
        assert FormatMinutes(minutes) == NatToString(h) + "h";
        CanonicalWholeHours(h);
      } else {
        assert FormatMinutes(minutes) == NatToString(h) + "h " + NatToString(r) + "m";
        CanonicalHoursAndMinutes(h, r);
      }
    }
  }

  /** "Nh Mm" in canonical form is the display of 60 N + M minutes. */
  lemma SpacedIsFormat(a: string, b: string)
    requires IsAmount(a, 'h') && IsAmount(b, 'm')
    requires AmountValue(a) >= 1 && 1 <= AmountValue(b) <= 59
    ensures FormatMinutes(60 * AmountValue(a) + AmountValue(b)) == a + [' '] + b
  {
    AmountIsRendering(a, 'h');
    AmountIsRendering(b, 'm');
    var h, m := AmountValue(a), AmountValue(b);
    assert (60 * h + m) / 60 == h && (60 * h + m) % 60 == m;
    JoinAtSpace(NatToString(h), NatToString(m));
  }

  /** "Nh" in canonical form is the display of 60 N minutes. */
  lemma HoursIsFormat(s: string)
    requires IsAmount(s, 'h') && AmountValue(s) >= 1
    ensures FormatMinutes(60 * AmountValue(s)) == s
  {
    AmountIsRendering(s, 'h');
    var h := AmountValue(s);
    assert (60 * h) / 60 == h && (60 * h) % 60 == 0;
  }

  /** "Nm" in canonical form is the display of N minutes. */
  lemma MinutesIsFormat(s: string)
    requires IsAmount(s, 'm') && AmountValue(s) <= 59
    ensures FormatMinutes(AmountValue(s)) == s
  {
    AmountIsRendering(s, 'm');
  }

  /** A canonical display reads back as some number of minutes, and is the display of that number. */
  lemma CanonicalIsFormat(s: string)
    requires IsCanonicalDuration(s)
    ensures ParseDuration(s).Some?
    ensures FormatMinutes(ParseDuration(s).value) == s
  {
    match IndexOf(s, ' ')
    case Some(k) =>
      SpacedCanonical(s, k);
    case None =>
      if IsAmount(s, 'h') && AmountValue(s) >= 1 {
        HoursCanonical(s);
      } else {
        MinutesCanonical(s);
      }
  }

  lemma SpacedCanonical(s: string, k: nat)
    requires IndexOf(s, ' ') == Some(k)
    requires IsAmount(s[..k], 'h') && IsAmount(s[k + 1..], 'm')
    requires AmountValue(s[..k]) >= 1 && 1 <= AmountValue(s[k + 1..]) <= 59
    ensures ParseDuration(s) == Some(60 * AmountValue(s[..k]) + AmountValue(s[k + 1..]))
    ensures FormatMinutes(60 * AmountValue(s[..k]) + AmountValue(s[k + 1..])) == s
  {
    var a, b := s[..k], s[k + 1..];
    AmountIsRendering(a, 'h');
    AmountIsRendering(b, 'm');
    assert s == a + [' '] + b;
    SpacedIsFormat(a, b);
  }

  lemma HoursCanonical(s: string)
    requires IndexOf(s, ' ') == None
    requires IsAmount(s, 'h') && AmountValue(s) >= 1
    ensures ParseDuration(s) == Some(60 * AmountValue(s))
    ensures FormatMinutes(60 * AmountValue(s)) == s
  {
    AmountIsRendering(s, 'h');
    HoursIsFormat(s);
  }

  lemma MinutesCanonical(s: string)
    requires IndexOf(s, ' ') == None
    requires IsAmount(s, 'm') && AmountValue(s) <= 59
    ensures ParseDuration(s) == Some(AmountValue(s))
    ensures FormatMinutes(AmountValue(s)) == s
  {
    AmountIsRendering(s, 'm');
    assert ParseAmount(s, 'h').None?;
    MinutesIsFormat(s);
  }

  /** Two canonical displays that read back as the same minutes are the same display. */
  lemma CanonicalDurationUnique(s: string, t: string)
    requires IsCanonicalDuration(s) && IsCanonicalDuration(t)
    requires ParseDuration(s) == ParseDuration(t)
    ensures s == t
  {
    CanonicalIsFormat(s);
    CanonicalIsFormat(t);
  }

  // ---------------------------------------------------------------------
  // Validation
  // ---------------------------------------------------------------------

  /** The messages, in the order the checks run. */
  const Messages: seq<string> := [
    "Title is required",
    "Title must be 100 characters or less",
    "Description must be 500 characters or less",
    "Start date is required",
    "End date is required",
    "End date must be after start date"
  ]

  const RuleCount: nat := 6

  /** Check number i fails for event (JavaScript truthiness: "" and an absent key are falsy). */
  predicate RuleBroken(event: PartialEvent, i: nat)
    requires i < RuleCount
  {
    match i
    case 0 => event.title.None? || Utf16Length(Trim(event.title.value)) == 0
    case 1 => event.title.Some? && event.title.value != "" && Utf16Length(event.title.value) > 100
    case 2 => event.description.Some? && event.description.value != ""
              && Utf16Length(event.description.value) > 500
    case 3 => event.startDate.None?
    case 4 => event.endDate.None?
    case _ => event.startDate.Some? && event.endDate.Some? && event.endDate.value <= event.startDate.value
  }

  /** The messages of the failed checks among the first n, in check order. */
  function ErrorsUpTo(event: PartialEvent, n: nat): seq<string>
    requires n <= RuleCount
  {
    if n == 0 then []
    else ErrorsUpTo(event, n - 1) + (if RuleBroken(event, n - 1) then [Messages[n - 1]] else [])
  }

  /** What `validateEvent` reports for an event. */
  function ValidationErrors(event: PartialEvent): seq<string> {
    ErrorsUpTo(event, RuleCount)
  }

  /** The messages of the first n checks are exactly those of the failed ones. */
  lemma {:induction false} ErrorsUpToContents(event: PartialEvent, n: nat)
    requires n <= RuleCount
    ensures forall m :: m in ErrorsUpTo(event, n) <==>
      exists j :: 0 <= j < n && RuleBroken(event, j) && m == Messages[j]
  {
    if n > 0 {
      ErrorsUpToContents(event, n - 1);
      assert forall m :: m in ErrorsUpTo(event, n) <==>
        m in ErrorsUpTo(event, n - 1) || (RuleBroken(event, n - 1) && m == Messages[n - 1]);
    }
  }

  /** The messages of the first n checks come in check order, each at most once. */
  lemma {:induction false} ErrorsUpToOrdered(event: PartialEvent, n: nat)
    requires n <= RuleCount
    ensures IsSubsequence(ErrorsUpTo(event, n), Messages[..n])
  {
    if n > 0 {
      var prev := ErrorsUpTo(event, n - 1);
      ErrorsUpToOrdered(event, n - 1);
      SubsequenceSnoc(prev, Messages[..n - 1], Messages[n - 1]);
      assert Messages[..n] == Messages[..n - 1] + [Messages[n - 1]];
      if RuleBroken(event, n - 1) {
        assert ErrorsUpTo(event, n) == prev + [Messages[n - 1]];
      } else {
        assert ErrorsUpTo(event, n) == prev;
      }
    }
  }

  /** `validateEvent`: runs every check and appends the message of each failed one. */
  method ValidateEvent(event: PartialEvent) returns (errors: seq<string>)
    ensures errors == ValidationErrors(event)
  {
    errors := [];
    if event.title.None? || Utf16Length(Trim(event.title.value)) == 0 {
      errors := errors + ["Title is required"];
    }
    assert errors == ErrorsUpTo(event, 1);
    if event.title.Some? && event.title.value != "" && Utf16Length(event.title.value) > 100 {
      errors := errors + ["Title must be 100 characters or less"];
    }
    assert errors == ErrorsUpTo(event, 2);
    if event.description.Some? && event.description.value != ""
       && Utf16Length(event.description.value) > 500 {
      errors := errors + ["Description must be 500 characters or less"];
    }
    assert errors == ErrorsUpTo(event, 3);
    if event.startDate.None? {
      errors := errors + ["Start date is required"];
    }
    assert errors == ErrorsUpTo(event, 4);
    if event.endDate.None? {
      errors := errors + ["End date is required"];
    }
    assert errors == ErrorsUpTo(event, 5);
    if event.startDate.Some? && event.endDate.Some? && event.endDate.value <= event.startDate.value {
      errors := errors + ["End date must be after start date"];
    }
  }

  /** An event ready to save, stated field by field. */
  predicate IsValidEvent(event: PartialEvent) {
    && event.title.Some?
    && (exists i :: 0 <= i < |event.title.value| && !IsWhiteSpace(event.title.value[i]))
    && Utf16Length(event.title.value) <= 100
    && (event.description.None? || Utf16Length(event.description.value) <= 500)
    && event.startDate.Some? && event.endDate.Some?
    && event.endDate.value > event.startDate.value
  }

  /** Validation reports nothing exactly when the event is ready to save. */
  lemma ValidationEmptyIffValid(event: PartialEvent)
    ensures ValidationErrors(event) == [] <==> IsValidEvent(event)
  {
    if event.title.Some? {
      TrimEmpty(event.title.value);
    }
    if ValidationErrors(event) == [] {
      forall j | 0 <= j < RuleCount ensures !RuleBroken(event, j) {
        ValidationReports(event, j);
      }
      assert !RuleBroken(event, 0) && !RuleBroken(event, 1) && !RuleBroken(event, 2);
      assert event.title.Some? && Trim(event.title.value) != [];
      assert Utf16Length(event.title.value) <= 100;
      assert event.description.None? || Utf16Length(event.description.value) <= 500;
      assert !RuleBroken(event, 3) && !RuleBroken(event, 4) && !RuleBroken(event, 5);
    } else {
      ErrorsUpToContents(event, RuleCount);
      var m := ValidationErrors(event)[0];
      assert m in ValidationErrors(event);
      var j :| 0 <= j < RuleCount && RuleBroken(event, j) && m == Messages[j];
    }
  }

  /** A message is reported exactly when its check fails. */
  lemma ValidationReports(event: PartialEvent, i: nat)
    requires i < RuleCount
    ensures Messages[i] in ValidationErrors(event) <==> RuleBroken(event, i)
  {
    ErrorsUpToContents(event, RuleCount);
    if Messages[i] in ValidationErrors(event) {
      var j :| 0 <= j < RuleCount && RuleBroken(event, j) && Messages[i] == Messages[j];
      assert i == j;
    }
  }

  /** Messages come in check order and each at most once. */
  lemma ValidationOrdered(event: PartialEvent)
    ensures IsSubsequence(ValidationErrors(event), Messages)
  {
    ErrorsUpToOrdered(event, RuleCount);
    assert Messages[..RuleCount] == Messages;
  }

  /** With both dates given, the date-order message appears exactly when the range is not valid. */
  lemma DateOrderMessage(event: PartialEvent)
    requires event.startDate.Some? && event.endDate.Some?
    ensures Messages[5] in ValidationErrors(event) <==>
            !IsValidDateRange(event.startDate.value, event.endDate.value)
  {
    ValidationReports(event, 5);
  }

  /** An absent or blank-without-characters title gets the "required" message but never the length one. */
  lemma MissingTitleNotTooLong(event: PartialEvent)
    requires event.title.None? || event.title == Some("")
    ensures Messages[0] in ValidationErrors(event) && Messages[1] !in ValidationErrors(event)
  {
    ValidationReports(event, 0);
    ValidationReports(event, 1);
  }

  /** A title of 101 spaces is both missing and too long. */
  lemma LongBlankTitleBothErrors(event: PartialEvent)
    requires event.title == Some(seq(101, i => ' '))
    ensures Messages[0] in ValidationErrors(event) && Messages[1] in ValidationErrors(event)
  {
    var t := event.title.value;
    TrimEmpty(t);
    assert Utf16Length(t) >= |t|;
    ValidationReports(event, 0);
    ValidationReports(event, 1);
  }

  /** An empty title with the end before the start: the title message, then the date-order one. */
  lemma EmptyTitleReversedExample(event: PartialEvent)
    requires event.title == Some("") && event.description.None?
    requires event.startDate.Some? && event.endDate.Some? && event.endDate.value < event.startDate.value
    ensures ValidationErrors(event) == ["Title is required", "End date must be after start date"]
  {
    assert Trim("") == "";
    assert ErrorsUpTo(event, 1) == ["Title is required"];
    assert !RuleBroken(event, 1) && !RuleBroken(event, 2) && !RuleBroken(event, 3) && !RuleBroken(event, 4);
    assert ErrorsUpTo(event, 2) == ErrorsUpTo(event, 1) + [];
    assert ErrorsUpTo(event, 3) == ErrorsUpTo(event, 2) + [];
    assert ErrorsUpTo(event, 4) == ErrorsUpTo(event, 3) + [];
    assert ErrorsUpTo(event, 5) == ErrorsUpTo(event, 4) + [];
  }

  // ---------------------------------------------------------------------
  // Default event
  // ---------------------------------------------------------------------

  /** The blue used for new events. */
  const DefaultColor: string := "#3b82f6"
  const DefaultCategory: string := "Other"

  /** `createDefaultEvent(date)`: an untitled event from 09:00 to 10:00 on `date`'s day. */
  function CreateDefaultEvent(date: Time): (e: NewEvent)
    ensures Day(e.startDate) == Day(date) && Hours(e.startDate) == 9 && Minutes(e.startDate) == 0
            && Seconds(e.startDate) == 0 && Milliseconds(e.startDate) == 0
    ensures Day(e.endDate) == Day(date) && Hours(e.endDate) == 10 && Minutes(e.endDate) == 0
            && Seconds(e.endDate) == 0 && Milliseconds(e.endDate) == 0
    ensures e.endDate - e.startDate == MsPerHour
    ensures e.title == "" && e.description == Some("")
    ensures e.color == Some(DefaultColor) && e.category == Some(DefaultCategory)
  {
    var startDate := SetHours(date, 9, 0, 0, 0);
    var endDate := SetHours(date, 10, 0, 0, 0);
    NewEvent("", Some(""), startDate, endDate, Some(DefaultColor), Some(DefaultCategory))
  }

  /** An event with an empty title and description and a proper date range fails only the title check. */
  lemma OnlyTitleMissing(p: PartialEvent)
    requires p.title == Some("") && p.description == Some("")
    requires p.startDate.Some? && p.endDate.Some? && p.startDate.value < p.endDate.value
    ensures ValidationErrors(p) == ["Title is required"]
  {
    assert Trim("") == "";
    assert RuleBroken(p, 0);
    assert !RuleBroken(p, 1) && !RuleBroken(p, 2) && !RuleBroken(p, 3) && !RuleBroken(p, 4) && !RuleBroken(p, 5);
    assert ErrorsUpTo(p, 1) == ["Title is required"];
    assert ErrorsUpTo(p, 2) == ErrorsUpTo(p, 1) + [];
    assert ErrorsUpTo(p, 3) == ErrorsUpTo(p, 2) + [];
    assert ErrorsUpTo(p, 4) == ErrorsUpTo(p, 3) + [];
    assert ErrorsUpTo(p, 5) == ErrorsUpTo(p, 4) + [];
    assert ErrorsUpTo(p, 6) == ErrorsUpTo(p, 5) + [];
  }

  /** The default event is refused only for its missing title. */
  lemma DefaultEventNeedsTitle(date: Time)
    ensures ValidationErrors(CreateDefaultEvent(date).AsPartial()) == ["Title is required"]
  {
    OnlyTitleMissing(CreateDefaultEvent(date).AsPartial());
  }

  // ---------------------------------------------------------------------
  // Grouping by start day
  // ---------------------------------------------------------------------

  /** The test "starts on day number d". */
  function StartsOnDay(d: int): CalendarEvent -> bool {
    (e: CalendarEvent) => Day(e.startDate) == d
  }

  /** The start days of the events, each once, in order of first appearance. */
  function StartDays(events: seq<CalendarEvent>): (ks: seq<int>)
    ensures forall d :: d in ks <==> exists e :: e in events && Day(e.startDate) == d
    ensures forall i, j :: 0 <= i < j < |ks| ==> ks[i] != ks[j]
  {
    if events == [] then []
    else
      var init := events[..|events| - 1];
      var d := Day(events[|events| - 1].startDate);
      var ks := StartDays(init);
      assert forall e :: e in events <==> e in init || e == events[|events| - 1];
      if d in ks then ks else ks + [d]
  }

  /** Total size of the groups with keys ks. */
  function GroupSizes(events: seq<CalendarEvent>, ks: seq<int>): nat {
    if ks == [] then 0
    else GroupSizes(events, ks[..|ks| - 1]) + |Filter(events, StartsOnDay(ks[|ks| - 1]))|
  }

  /** How many times d occurs in ks. */
  function Occurrences(ks: seq<int>, d: int): nat {
    if ks == [] then 0
    else Occurrences(ks[..|ks| - 1], d) + (if ks[|ks| - 1] == d then 1 else 0)
  }

  lemma {:induction false} GroupSizesAppendEvent(init: seq<CalendarEvent>, x: CalendarEvent, ks: seq<int>)
    ensures GroupSizes(init + [x], ks) == GroupSizes(init, ks) + Occurrences(ks, Day(x.startDate))
  {
    if ks != [] {
      GroupSizesAppendEvent(init, x, ks[..|ks| - 1]);
      FilterAppend(init, [x], StartsOnDay(ks[|ks| - 1]));
    }
  }

  lemma {:induction false} OccurrencesDistinct(ks: seq<int>, d: int)
    requires forall i, j :: 0 <= i < j < |ks| ==> ks[i] != ks[j]
    ensures Occurrences(ks, d) == if d in ks then 1 else 0
  {
    if ks != [] {
      var init := ks[..|ks| - 1];
      OccurrencesDistinct(init, d);
      assert ks == init + [ks[|ks| - 1]];
      assert ks[|ks| - 1] == d ==> d !in init;
    }
  }

  lemma NoneStartOnDay(events: seq<CalendarEvent>, d: int)
    requires d !in StartDays(events)
    ensures Filter(events, StartsOnDay(d)) == []
  {
  }

  /** Every event is in exactly one group, so the group sizes add up to the number of events. */
  lemma {:induction false} GroupSizesSum(events: seq<CalendarEvent>)
    ensures GroupSizes(events, StartDays(events)) == |events|
  {
    if events != [] {
      var init := events[..|events| - 1];
      var x := events[|events| - 1];
      var d := Day(x.startDate);
      var ks := StartDays(init);
      assert events == init + [x];
      GroupSizesSum(init);
      GroupSizesAppendEvent(init, x, StartDays(events));
      OccurrencesDistinct(StartDays(events), d);
      if d !in ks {
        NoneStartOnDay(init, d);
        assert StartDays(events) == ks + [d];
        assert (ks + [d])[..|ks|] == ks;
      }
    }
  }

  /** The map of groups holds exactly the groups of `prefix`, under the keys `keys`. */
  ghost predicate GroupsOf(prefix: seq<CalendarEvent>, keys: seq<int>, grouped: map<int, seq<CalendarEvent>>) {
    && keys == StartDays(prefix)
    && (forall k :: k in grouped <==> k in keys)
    && forall k :: k in grouped ==> grouped[k] == Filter(prefix, StartsOnDay(k))
  }

  /** The start days after one more event: its day is added last unless already there. */
  lemma StartDaysSnoc(prefix: seq<CalendarEvent>, x: CalendarEvent)
    ensures var d := Day(x.startDate);
      StartDays(prefix + [x]) == if d in StartDays(prefix) then StartDays(prefix) else StartDays(prefix) + [d]
  {
    var events := prefix + [x];
    assert events[..|events| - 1] == prefix;
  }

  /** The group of day k after one more event: the event joins it exactly when it starts on k. */
  lemma FilterSnocDay(prefix: seq<CalendarEvent>, x: CalendarEvent, k: int)
    ensures Filter(prefix + [x], StartsOnDay(k))
         == Filter(prefix, StartsOnDay(k)) + (if Day(x.startDate) == k then [x] else [])
  {
    FilterAppend(prefix, [x], StartsOnDay(k));
    assert [x][1..] == [];
  }

  /** Adding one event to its day's group (a new key goes last) keeps the grouping exact. */
  lemma GroupSnoc(prefix: seq<CalendarEvent>, x: CalendarEvent, keys: seq<int>, grouped: map<int, seq<CalendarEvent>>)
    requires GroupsOf(prefix, keys, grouped)
    ensures var d := Day(x.startDate);
      GroupsOf(prefix + [x],
               if d in grouped then keys else keys + [d],
               grouped[d := (if d in grouped then grouped[d] else []) + [x]])
  {
    var d := Day(x.startDate);
    var grouped' := grouped[d := (if d in grouped then grouped[d] else []) + [x]];
    StartDaysSnoc(prefix, x);
    forall k | k in grouped'
      ensures grouped'[k] == Filter(prefix + [x], StartsOnDay(k))
    {
      FilterSnocDay(prefix, x, k);
      if k == d && d !in grouped {
        NoneStartOnDay(prefix, d);
      }
    }
  }

  /** GroupSnoc for the prefix events[..i] and the next event events[i]. */
  lemma GroupStep(events: seq<CalendarEvent>, i: nat, keys: seq<int>, grouped: map<int, seq<CalendarEvent>>)
    requires i < |events|
    requires GroupsOf(events[..i], keys, grouped)
    ensures var d := Day(events[i].startDate);
      GroupsOf(events[..i + 1],
               if d in grouped then keys else keys + [d],
               grouped[d := (if d in grouped then grouped[d] else []) + [events[i]]])
  {
    assert events[..i + 1] == events[..i] + [events[i]];
    GroupSnoc(events[..i], events[i], keys, grouped);
  }

  /**
    `groupEventsByDate`: events grouped under the day they start on.  The
    JavaScript Map is its key order `keys` (insertion order) and its
    contents `grouped`.
  */
  method GroupEventsByDate(events: seq<CalendarEvent>) returns (keys: seq<int>, grouped: map<int, seq<CalendarEvent>>)
    ensures keys == StartDays(events)
    ensures forall k :: k in grouped <==> k in keys
    ensures forall k :: k in grouped ==> grouped[k] == Filter(events, StartsOnDay(k))
    ensures GroupSizes(events, keys) == |events|
  {
    keys := [];
    grouped := map[];
    for i := 0 to |events|
      invariant GroupsOf(events[..i], keys, grouped)
    {
      var event := events[i];
      var dateKey := Day(event.startDate);
      var existing := if dateKey in grouped then grouped[dateKey] else [];
      GroupStep(events, i, keys, grouped);
      if dateKey !in grouped {
        keys := keys + [dateKey];
      }
      grouped := grouped[dateKey := existing + [event]];
    }
    assert events[..|events|] == events;
    assert GroupsOf(events, keys, grouped);
    GroupSizesSum(events);
  }

  // ---------------------------------------------------------------------
  // Multi-day events
  // ---------------------------------------------------------------------

  /** The event ends on a later calendar day than it starts. */
  predicate IsMultiDayEvent(event: CalendarEvent)
    ensures IsMultiDayEvent(event) <==> Day(event.endDate) > Day(event.startDate)
  {
    var start := StartOfDay(event.startDate);
    var end := StartOfDay(event.endDate);
    end > start
  }

  /** A multi-day event is exactly one that also shows on the day after it starts. */
  lemma MultiDayShowsNextDay(event: CalendarEvent)
    requires HasValidDaySpan(event)
    ensures IsMultiDayEvent(event) <==> IsEventOnDate(event, AddDays(event.startDate, 1))
  {
  }
}
