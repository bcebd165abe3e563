/**
  The event list owned by the calendar (src/hooks/useEventManager.ts):
  append with a fresh id, merge updates into the events with a given id,
  delete by id and look up by id.  Each change replaces the whole list.
*/
module UseEventManager {
  import opened Seqs
  import opened CalendarTypes

  /** The value of an optional key after `{ ...base, ...updates }`. */
  function Spread<T>(update: Option<T>, base: T): T {
    if update.Some? then update.value else base
  }

  /** `{ ...event, ...updates }`: every key present in `updates` replaces the event's value. */
  function Merge(event: CalendarEvent, updates: PartialEvent): (r: CalendarEvent)
    ensures updates.id.Some? ==> r.id == updates.id.value
    ensures updates.id.None? ==> r.id == event.id
    ensures updates.title.Some? ==> r.title == updates.title.value
    ensures updates.title.None? ==> r.title == event.title
    ensures r.description == if updates.description.Some? then updates.description else event.description
    ensures updates.startDate.Some? ==> r.startDate == updates.startDate.value
    ensures updates.startDate.None? ==> r.startDate == event.startDate
    ensures updates.endDate.Some? ==> r.endDate == updates.endDate.value
    ensures updates.endDate.None? ==> r.endDate == event.endDate
    ensures r.color == if updates.color.Some? then updates.color else event.color
    ensures r.category == if updates.category.Some? then updates.category else event.category
  {
    CalendarEvent(
      Spread(updates.id, event.id),
      Spread(updates.title, event.title),
      if updates.description.Some? then updates.description else event.description,
      Spread(updates.startDate, event.startDate),
      Spread(updates.endDate, event.endDate),
      if updates.color.Some? then updates.color else event.color,
      if updates.category.Some? then updates.category else event.category)
  }

  /** `{}`: an update with no keys. */
  const NoUpdates: PartialEvent := PartialEvent(None, None, None, None, None, None, None)

  /** `{ ...first, ...second }` of two updates: keys of `second` win. */
  function Combine(first: PartialEvent, second: PartialEvent): PartialEvent {
    PartialEvent(
      if second.id.Some? then second.id else first.id,
      if second.title.Some? then second.title else first.title,
      if second.description.Some? then second.description else first.description,
      if second.startDate.Some? then second.startDate else first.startDate,
      if second.endDate.Some? then second.endDate else first.endDate,
      if second.color.Some? then second.color else first.color,
      if second.category.Some? then second.category else first.category)
  }

  /** Merging nothing changes nothing; merging the same update twice is merging it once. */
  lemma MergeLaws(event: CalendarEvent, updates: PartialEvent)
    ensures Merge(event, NoUpdates) == event
    ensures Merge(Merge(event, updates), updates) == Merge(event, updates)
  {
  }

  /** Two updates in a row are one update with the keys of both, the later ones winning. */
  lemma MergeTwice(event: CalendarEvent, first: PartialEvent, second: PartialEvent)
    ensures Merge(Merge(event, first), second) == Merge(event, Combine(first, second))
  {
  }

  /** `events.map(e => e.id === id ? { ...e, ...updates } : e)`. */
  function UpdateById(events: seq<CalendarEvent>, id: string, updates: PartialEvent): (r: seq<CalendarEvent>)
    ensures |r| == |events|
    ensures forall i :: 0 <= i < |events| && events[i].id == id ==> r[i] == Merge(events[i], updates)
    ensures forall i :: 0 <= i < |events| && events[i].id != id ==> r[i] == events[i]
  {
    if events == [] then []
    else
      [if events[0].id == id then Merge(events[0], updates) else events[0]]
      + UpdateById(events[1..], id, updates)
  }

  /** The event-has-another-id test of `deleteEvent`. */
  function HasOtherId(id: string): CalendarEvent -> bool {
    (e: CalendarEvent) => e.id != id
  }

  /** `events.filter(e => e.id !== id)`. */
  function RemoveId(events: seq<CalendarEvent>, id: string): (r: seq<CalendarEvent>)
    ensures IsSubsequence(r, events)
    ensures forall e :: e in r <==> e in events && e.id != id
    ensures forall e :: multiset(r)[e] == if e.id != id then multiset(events)[e] else 0
  {
    FilterCount(events, HasOtherId(id));
    Filter(events, HasOtherId(id))
  }

  /** `events.find(e => e.id === id)`: the first event with that id. */
  function FindById(events: seq<CalendarEvent>, id: string): (r: Option<CalendarEvent>)
    ensures r.None? <==> forall i :: 0 <= i < |events| ==> events[i].id != id
    ensures r.Some? ==> exists i :: && 0 <= i < |events| && events[i] == r.value && r.value.id == id
                                    && forall j :: 0 <= j < i ==> events[j].id != id
  {
    if events == [] then None
    else if events[0].id == id then Some(events[0])
    else
      var r := FindById(events[1..], id);
      if r.Some? then
        var i :| 0 <= i < |events[1..]| && events[1..][i] == r.value && r.value.id == id
                 && forall j :: 0 <= j < i ==> events[1..][j].id != id;
        assert events[i + 1] == r.value;
        assert forall j :: 0 <= j < i + 1 ==> events[j].id != id by {
          forall j | 0 <= j < i + 1 ensures events[j].id != id {
            if j > 0 { assert events[j] == events[1..][j - 1]; }
          }
        }
        r
      else
        r
  }

  /** Deleting twice is deleting once; deleting an id nobody has changes nothing. */
  lemma RemoveIdLaws(events: seq<CalendarEvent>, id: string)
    ensures RemoveId(RemoveId(events, id), id) == RemoveId(events, id)
    ensures (forall i :: 0 <= i < |events| ==> events[i].id != id) ==> RemoveId(events, id) == events
  {
    FilterIdempotent(events, HasOtherId(id));
    if forall i :: 0 <= i < |events| ==> events[i].id != id {
      FilterAll(events, HasOtherId(id));
    }
  }

  /** After a delete the id is not found any more. */
  lemma FindAfterRemove(events: seq<CalendarEvent>, id: string)
    ensures FindById(RemoveId(events, id), id).None?
  {
    var r := RemoveId(events, id);
    forall i | 0 <= i < |r| ensures r[i].id != id {
      assert r[i] in r;
    }
  }

  /** An event added under an id nobody has is what that id finds. */
  lemma FindAfterAdd(events: seq<CalendarEvent>, event: NewEvent, freshId: string)
    requires FindById(events, freshId).None?
    ensures FindById(events + [event.WithId(freshId)], freshId) == Some(event.WithId(freshId))
  {
    var all := events + [event.WithId(freshId)];
    var r := FindById(all, freshId);
    var i :| 0 <= i < |all| && all[i] == r.value && r.value.id == freshId;
    assert i == |events|;
  }

  /** An update that keeps ids leaves the first event with the id merged and found again. */
  lemma {:induction false} FindAfterUpdate(events: seq<CalendarEvent>, id: string, updates: PartialEvent)
    requires updates.id.None?
    ensures FindById(UpdateById(events, id, updates), id)
            == if FindById(events, id).Some? then Some(Merge(FindById(events, id).value, updates)) else None
    decreases |events|
  {
    if events != [] {
      var u := UpdateById(events, id, updates);
      assert u[1..] == UpdateById(events[1..], id, updates);
      if events[0].id != id {
        FindAfterUpdate(events[1..], id, updates);
      }
    }
  }

  /** The event list cell of the hook. */
  class EventManager {
    var events: seq<CalendarEvent>

    /** `useState(initialEvents)`. */
    constructor(initialEvents: seq<CalendarEvent>)
      ensures events == initialEvents
    {
      events := initialEvents;
    }

    /** `addEvent`: the event with the fresh id goes at the end. */
    method AddEvent(event: NewEvent, freshId: string)
      modifies this
      ensures events == old(events) + [event.WithId(freshId)]
      ensures old(GetEventById(freshId)).None? ==> GetEventById(freshId) == Some(event.WithId(freshId))
    {
      if FindById(events, freshId).None? {
        FindAfterAdd(events, event, freshId);
      }
      events := events + [event.WithId(freshId)];
    }

    /** `updateEvent`: the updates are merged into every event with the id. */
    method UpdateEvent(id: string, updates: PartialEvent)
      modifies this
      ensures events == UpdateById(old(events), id, updates)
    {
      events := UpdateById(events, id, updates);
    }

    /** `deleteEvent`: every event with the id is dropped. */
    method DeleteEvent(id: string)
      modifies this
      ensures events == RemoveId(old(events), id)
      ensures GetEventById(id).None?
    {
      FindAfterRemove(events, id);
      events := RemoveId(events, id);
    }

    /** `getEventById`. */
    function GetEventById(id: string): (r: Option<CalendarEvent>)
      reads this
      ensures r.Some? ==> r.value in events && r.value.id == id
      ensures r.None? <==> forall e :: e in events ==> e.id != id
    {
      FindById(events, id)
    }
  }
}
