/**
  The calendar's UI state (src/hooks/useCalendar.ts): the displayed date and
  view, the selected date and event, and whether the event dialog is open
  and in which mode.  Each transition copies the state and overwrites a few
  fields.
*/
module UseCalendar {
  import opened DateFns
  import opened CalendarTypes

  /** The dialog is open exactly when it has a mode. */
  predicate ModalConsistent(s: CalendarState) {
    s.isModalOpen <==> s.modalMode.Some?
  }

  /** The state cell of the hook. */
  class Calendar {
    var state: CalendarState

    predicate Valid()
      reads this
    {
      ModalConsistent(state)
    }

    /** `useCalendar(initialDate, initialView)`: nothing selected, dialog closed. */
    constructor(initialDate: Time, initialView: CalendarView)
      ensures state == CalendarState(initialDate, initialView, None, None, false, None)
      ensures Valid()
    {
      state := CalendarState(initialDate, initialView, None, None, false, None);
    }

    /** `goToNextMonth`, with the month shift (`addMonths(d, 1)`) passed in as `nextMonth`. */
    method GoToNextMonth(nextMonth: Time -> Time)
      requires Valid()
      modifies this
      ensures Valid()
      ensures state == old(state).(currentDate := nextMonth(old(state).currentDate))
    {
      state := state.(currentDate := nextMonth(state.currentDate));
    }

    /** `goToPreviousMonth`, with the month shift (`subMonths(d, 1)`) passed in as `previousMonth`. */
    method GoToPreviousMonth(previousMonth: Time -> Time)
      requires Valid()
      modifies this
      ensures Valid()
      ensures state == old(state).(currentDate := previousMonth(old(state).currentDate))
    {
      state := state.(currentDate := previousMonth(state.currentDate));
    }

    /** `goToToday`, with the clock reading passed in as `now`. */
    method GoToToday(now: Time)
      requires Valid()
      modifies this
      ensures Valid()
      ensures state == old(state).(currentDate := now)
    {
      state := state.(currentDate := now);
    }

    method SetView(view: CalendarView)
      requires Valid()
      modifies this
      ensures Valid()
      ensures state == old(state).(view := view)
    {
      state := state.(view := view);
    }

    /** `setSelectedDate(date)`; `null` is None. */
    method SetSelectedDate(date: Option<Time>)
      requires Valid()
      modifies this
      ensures Valid()
      ensures state == old(state).(selectedDate := date)
    {
      state := state.(selectedDate := date);
    }

    /** `setSelectedEvent(event)`; `null` is None. */
    method SetSelectedEvent(event: Option<CalendarEvent>)
      requires Valid()
      modifies this
      ensures Valid()
      ensures state == old(state).(selectedEvent := event)
    {
      state := state.(selectedEvent := event);
    }

    /** `openCreateModal(date)`: select the date, drop the selected event, open the dialog to create. */
    method OpenCreateModal(date: Time)
      modifies this
      ensures Valid()
      ensures state == old(state).(selectedDate := Some(date), selectedEvent := None,
                                   isModalOpen := true, modalMode := Some(Create))
    {
      state := state.(selectedDate := Some(date), selectedEvent := None,
                      isModalOpen := true, modalMode := Some(Create));
    }

    /** `openEditModal(event)`: select the event and open the dialog to edit; the selected date stays. */
    method OpenEditModal(event: CalendarEvent)
      modifies this
      ensures Valid()
      ensures state == old(state).(selectedEvent := Some(event), isModalOpen := true, modalMode := Some(Edit))
    {
      state := state.(selectedEvent := Some(event), isModalOpen := true, modalMode := Some(Edit));
    }

    /** `closeModal`: close the dialog and forget its mode; both selections stay. */
    method CloseModal()
      modifies this
      ensures Valid()
      ensures state == old(state).(isModalOpen := false, modalMode := None)
    {
      state := state.(isModalOpen := false, modalMode := None);
    }
  }
}
