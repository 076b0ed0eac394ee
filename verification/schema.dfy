/** The rows the booking core reads and writes: events, their file
    attachments and their service requests, held in one in-memory store. */
module Schema {
  import opened Base

  datatype Status = Draft | Submitted | Approved | Declined

  datatype Visibility = Private | Public

  /** One booking request. `conflict` is the overlap hint cached at create
      and submit time; `createdAt` is the row's creation instant, used to
      order the inbox and the creator's own list. */
  datatype Event = Event(
    title: string,
    description: Option<string>,
    groupId: GroupId,
    venueId: VenueId,
    startsAt: Time,
    endsAt: Time,
    expectedAttendance: int,
    status: Status,
    visibility: Visibility,
    conflict: bool,
    createdById: UserId,
    createdAt: Time)

  /** An uploaded file recorded against an event. */
  datatype Attachment = Attachment(eventId: EventId, filename: string, mime: string, sizeBytes: int)

  /** A request for a support service (AV, facilities, ...) made for an event. */
  datatype EventService = EventService(eventId: EventId, serviceId: ServiceId, notes: Option<string>)

  /** An event together with its key, as the listing routes return it. */
  datatype Row = Row(id: EventId, event: Event)

  /** The store. All three tables draw their keys from `nextId`. */
  datatype Store = Store(
    events: map<EventId, Event>,
    attachments: map<RowId, Attachment>,
    services: map<RowId, EventService>,
    nextId: nat)
  {
    /** Every key was handed out already, and every attachment and
        service row belongs to an event that exists (the foreign keys). */
    ghost predicate Valid() {
      && (forall id :: id in events ==> id < nextId)
      && (forall k :: k in attachments ==> k < nextId && attachments[k].eventId in events)
      && (forall k :: k in services ==> k < nextId && services[k].eventId in events)
    }
  }
}
