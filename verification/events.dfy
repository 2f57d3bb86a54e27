/** Event records (class `Events` of src/events.py) and the (month, year) key derived from their date. */
module Events {
  import opened Wrappers

  /** A month number as a calendar date carries it. */
  type MonthNumber = m: int | 1 <= m <= 12 witness 1

  /** The calendar part of a `datetime`; the day is carried but never validated or used by the index. */
  datatype Date = Date(year: int, month: MonthNumber, day: int)

  /** The clock part of a `datetime`. */
  datatype ClockTime = ClockTime(hour: int, minute: int)

  /** A full date and time, as used for reminders. */
  datatype Moment = Moment(date: Date, time: ClockTime)

  /**
   * Every way an operation of the index fails. In Python each is a ValueError.
   * Each distinct message has its own kind, except the message "event already
   * exists in the month", which is raised by the bucket's id check and by the
   * controller's identity check and so becomes two kinds, one per site.
   */
  datatype CalendarError =
    | KeyMismatch      // the event's month or year differs from the bucket's
    | DuplicateId      // the bucket already holds an event with the same id
    | AlreadyPresent   // the controller found this very event object already in its bucket
    | NotInMonth       // the event object is not in the bucket
    | NotInController  // no bucket with the event's key holds the event object

  /**
   * One calendar event. Python's `Events` defines no `__eq__`, so membership,
   * removal and lookup compare objects by identity; a Dafny class gives the
   * same reference equality. The index never assigns to an event's fields,
   * so they are constants here.
   */
  class Event {
    const id: int
    const name: string
    const description: string
    const date: Date
    const time: Option<ClockTime>
    const location: Option<string>
    const kind: Option<string>
    const status: Option<string>
    const priority: Option<int>
    const notes: Option<string>
    const reminder: Option<Moment>

    constructor (id: int, name: string, description: string, date: Date,
                 time: Option<ClockTime>, location: Option<string>, kind: Option<string>,
                 status: Option<string>, priority: Option<int>, notes: Option<string>,
                 reminder: Option<Moment>)
      ensures this.id == id && this.name == name && this.description == description
      ensures this.date == date && this.time == time && this.location == location
      ensures this.kind == kind && this.status == status && this.priority == priority
      ensures this.notes == notes && this.reminder == reminder
      ensures Month() == date.month && Year() == date.year
    {
      this.id := id;
      this.name := name;
      this.description := description;
      this.date := date;
      this.time := time;
      this.location := location;
      this.kind := kind;
      this.status := status;
      this.priority := priority;
      this.notes := notes;
      this.reminder := reminder;
    }

    /** The month half of the event's bucket key. */
    function Month(): (m: int)
      ensures 1 <= m <= 12
    {
      date.month
    }

    /** The year half of the event's bucket key. */
    function Year(): int {
      date.year
    }
  }
}
