/** The records of the calendar component: events, the view and the calendar's UI state. */
module CalendarTypes {
  import opened DateFns

  datatype Option<T> = None | Some(value: T)

  /** A calendar event; `description`, `color` and `category` are optional. */
  datatype CalendarEvent = CalendarEvent(
    id: string,
    title: string,
    description: Option<string>,
    startDate: Time,
    endDate: Time,
    color: Option<string>,
    category: Option<string>)

  /** `Omit<CalendarEvent, 'id'>`: an event before it has been given an id. */
  datatype NewEvent = NewEvent(
    title: string,
    description: Option<string>,
    startDate: Time,
    endDate: Time,
    color: Option<string>,
    category: Option<string>)
  {
    /** `{ ...event, id }`. */
    function WithId(id: string): CalendarEvent {
      CalendarEvent(id, title, description, startDate, endDate, color, category)
    }

    /** The same event seen as a `Partial<CalendarEvent>` without an id. */
    function AsPartial(): PartialEvent {
      PartialEvent(None, Some(title), description, Some(startDate), Some(endDate), color, category)
    }
  }

  /** `Partial<CalendarEvent>`: every key may be absent (None). */
  datatype PartialEvent = PartialEvent(
    id: Option<string>,
    title: Option<string>,
    description: Option<string>,
    startDate: Option<Time>,
    endDate: Option<Time>,
    color: Option<string>,
    category: Option<string>)

  /** `'month' | 'week'`. */
  datatype CalendarView = Month | Week

  /** `'create' | 'edit'`. */
  datatype ModalMode = Create | Edit

  /** The one state record of the calendar hook. */
  datatype CalendarState = CalendarState(
    currentDate: Time,
    view: CalendarView,
    selectedDate: Option<Time>,
    selectedEvent: Option<CalendarEvent>,
    isModalOpen: bool,
    modalMode: Option<ModalMode>)
}
