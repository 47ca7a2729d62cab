/** The event record of the `events` table. Dates are integer day numbers. */
module Events {
  import opened Wrappers

  /** The `event_status` enumeration. */
  datatype EventStatus = Draft | Scheduled | Live | Paused | Completed | Cancelled

  /** One row of `events`. */
  datatype Event = Event(
    id: string,
    name: string,
    date: int,
    location: Option<string>,
    description: Option<string>,
    status: EventStatus)

  /** The sort key of the events list. */
  function DateOf(event: Event): int
  {
    event.date
  }
}
