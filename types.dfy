/** The records of the schedule (types.ts): an event, a day of the week and
    the optional parts of an event. */
module Types {

  /** An optional value: TypeScript's `field?: T`. */
  datatype Option<+T> = None | Some(value: T)

  /** The structured participant detail of an event: display text and an optional link. */
  datatype ParticipantDetail = ParticipantDetail(text: string, link: Option<string>)

  /** One scheduled activity. `lastModified` is milliseconds since the epoch. */
  datatype ScheduleEvent = ScheduleEvent(
    id: string,
    time: string,
    location: string,
    content: string,
    isOnlineMeeting: Option<bool>,
    preparation: string,
    host: string,
    participants: string,
    detailedParticipants: Option<ParticipantDetail>,
    lastModified: Option<int>)

  /** One calendar day of the week: its display date, its weekday label and
      its events in display (insertion) order. */
  datatype ScheduleDay = ScheduleDay(date: string, dayOfWeek: string, events: seq<ScheduleEvent>)

  /** The form fields of a new event: a ScheduleEvent without `id`,
      `detailedParticipants`, `isOnlineMeeting` (and without `lastModified`,
      which the add-event form never fills in). */
  datatype EventFields = EventFields(
    time: string,
    location: string,
    content: string,
    preparation: string,
    host: string,
    participants: string)
}
