/** The event routes of the server as pure transitions over the store:
    create, attach files, submit, decide, edit and delete. Each takes the
    store and the acting user and answers Done with the new store and the
    response body, or Failed with the error; a failure carries no store,
    so every refused request leaves the store as it was. */
module Lifecycle {
  import opened Base
  import opened Authz
  import opened Schema
  import opened Conflict

  datatype Reply<+T> = Done(store: Store, body: T) | Failed(error: ApiError)

  /** One entry of the `services` array of a create request. */
  datatype ServiceRequest = ServiceRequest(serviceId: ServiceId, notes: Option<string>)

  /** The body of `POST /api/events`. Times are already parsed instants;
      None stands for a field that is absent (or falsy). `services` is None
      when the body's field is not an array. */
  datatype CreateRequest = CreateRequest(
    title: Option<string>,
    description: Option<string>,
    groupId: Option<GroupId>,
    venueId: Option<VenueId>,
    startsAt: Option<Time>,
    endsAt: Option<Time>,
    expectedAttendance: Option<int>,
    services: Option<seq<ServiceRequest>>)

  /** A JSON scalar, for the one edit field whose JSON type matters. */
  datatype JsonScalar = JNumber(n: int) | JString(s: string) | JBool(b: bool) | JNull

  /** The body of `PATCH /api/events/:id`. None leaves the field alone.
      `description` may be set to null; `startsAt`/`endsAt` None also stands
      for a falsy value; `expectedAttendance` is applied only when it is a
      JSON number. */
  datatype EditRequest = EditRequest(
    title: Option<string>,
    description: Option<Option<string>>,
    groupId: Option<GroupId>,
    venueId: Option<VenueId>,
    startsAt: Option<Time>,
    endsAt: Option<Time>,
    expectedAttendance: Option<JsonScalar>,
    visibility: Option<Visibility>)

  /** An uploaded file as the upload middleware hands it to the route. */
  datatype Upload = Upload(filename: string, mime: string, sizeBytes: int)

  const NoEdit: EditRequest := EditRequest(None, None, None, None, None, None, None, None)

  // ---------------------------------------------------------------------
  // Authorization shared by edit and delete

  /** Edit and delete are allowed to any admin, and to the creator until
      the event is approved. */
  predicate MayModify(actor: Actor, ev: Event) {
    IsAdmin(actor) || (ev.createdById == actor.id && ev.status != Approved)
  }

  /** Approval locks the creator out; an admin is never locked out. */
  lemma ApprovalLocksOutCreator(actor: Actor, ev: Event)
    ensures ev.status == Approved && !IsAdmin(actor) ==> !MayModify(actor, ev)
    ensures IsAdmin(actor) ==> MayModify(actor, ev)
    ensures ev.createdById == actor.id && ev.status in {Draft, Submitted, Declined} ==> MayModify(actor, ev)
  {
  }

  // ---------------------------------------------------------------------
  // create

  predicate MissingRequired(req: CreateRequest) {
    || !Truthy(req.title)
    || req.groupId.None?
    || req.venueId.None?
    || req.startsAt.None?
    || req.endsAt.None?
  }

  /** The service requests of a create request; a non-array is none. */
  function Requested(req: CreateRequest): seq<ServiceRequest> {
    if req.services.Some? then req.services.value else []
  }

  /** The service rows a create inserts for `reqs`, in request order. */
  function ServiceRecords(eventId: EventId, reqs: seq<ServiceRequest>): seq<EventService> {
    seq(|reqs|, i requires 0 <= i < |reqs| => EventService(eventId, reqs[i].serviceId, OrNull(reqs[i].notes)))
  }

  /** The service table after inserting one row per request for `eventId`,
      keyed `first`, `first + 1`, ... in request order. */
  function InsertServices(services: map<RowId, EventService>, eventId: EventId, reqs: seq<ServiceRequest>, first: nat)
    : (m: map<RowId, EventService>)
    ensures forall i :: 0 <= i < |reqs| ==>
              first + i in m && m[first + i] == EventService(eventId, reqs[i].serviceId, OrNull(reqs[i].notes))
    ensures forall k :: k in m && k !in services ==> first <= k < first + |reqs| && m[k].eventId == eventId
    ensures forall k :: k in services && k < first ==> k in m && m[k] == services[k]
  {
    InsertNumbered(services, ServiceRecords(eventId, reqs), first)
  }

  /** `POST /api/events`. The window is not checked for start < end, and
      the conflict hint is computed against the store before the insert. */
  function Create(st: Store, actor: Actor, req: CreateRequest, now: Time): (r: Reply<Row>)
    ensures r.Failed? <==> MissingRequired(req)
    ensures r.Failed? ==> r.error == BadRequest
    ensures r.Done? ==> r.store.events == st.events[r.body.id := r.body.event] && r.store.attachments == st.attachments
    ensures r.Done? ==>
              var ev := r.body.event;
              && ev.title == req.title.value
              && ev.description == OrNull(req.description)
              && ev.groupId == req.groupId.value
              && ev.venueId == req.venueId.value
              && ev.startsAt == req.startsAt.value
              && ev.endsAt == req.endsAt.value
              && ev.expectedAttendance == (if req.expectedAttendance.Some? then req.expectedAttendance.value else 0)
              && ev.status == Draft
              && ev.visibility == Private
              && ev.createdById == actor.id
              && ev.createdAt == now
              && ev.conflict == HasVenueConflict(st.events, ev.venueId, ev.startsAt, ev.endsAt)
    ensures r.Done? ==>
              forall k :: k in r.store.services && k !in st.services ==>
                && r.store.services[k].eventId == r.body.id
                && r.body.id + 1 <= k < r.body.id + 1 + |Requested(req)|
    ensures r.Done? ==>
              forall i :: 0 <= i < |Requested(req)| ==>
                var k := r.body.id + 1 + i;
                && k in r.store.services
                && r.store.services[k] == EventService(r.body.id, Requested(req)[i].serviceId, OrNull(Requested(req)[i].notes))
    ensures r.Done? && (forall k :: k in st.events ==> k < st.nextId) ==>
              r.body.id !in st.events && |r.store.events| == |st.events| + 1
    ensures r.Done? && (forall k :: k in st.services ==> k < st.nextId) ==>
              forall k :: k in st.services ==> k in r.store.services && r.store.services[k] == st.services[k]
  {
    if MissingRequired(req) then Failed(BadRequest)
    else
      var id := st.nextId;
      var venue := req.venueId.value;
      var s := req.startsAt.value;
      var e := req.endsAt.value;
      var ev := Event(
        req.title.value, OrNull(req.description), req.groupId.value, venue, s, e,
        req.expectedAttendance.GetOr(0), Draft, Private,
        HasVenueConflict(st.events, venue, s, e), actor.id, now);
      var reqs := Requested(req);
      var services := InsertServices(st.services, id, reqs, id + 1);
      Done(Store(st.events[id := ev], st.attachments, services, id + 1 + |reqs|), Row(id, ev))
  }

  // ---------------------------------------------------------------------
  // attach files

  function AttachmentRecords(eventId: EventId, files: seq<Upload>): seq<Attachment> {
    seq(|files|, i requires 0 <= i < |files| => Attachment(eventId, files[i].filename, files[i].mime, files[i].sizeBytes))
  }

  /** `POST /api/events/:id/attachments`: creator only (any status); others
      and absent events get 404. One row per uploaded file. */
  function AddAttachments(st: Store, actor: Actor, id: EventId, files: seq<Upload>): (r: Reply<seq<Attachment>>)
    ensures r.Failed? <==> id !in st.events || st.events[id].createdById != actor.id
    ensures r.Failed? ==> r.error == NotFound
    ensures r.Done? ==> r.store.events == st.events && r.store.services == st.services
    ensures r.Done? ==> |r.body| == |files|
    ensures r.Done? ==> forall i :: 0 <= i < |files| ==>
              r.body[i] == Attachment(id, files[i].filename, files[i].mime, files[i].sizeBytes)
    ensures r.Done? ==> forall i :: 0 <= i < |files| ==>
              st.nextId + i in r.store.attachments && r.store.attachments[st.nextId + i] == r.body[i]
    ensures r.Done? ==> forall k :: k in r.store.attachments && k !in st.attachments ==>
              st.nextId <= k < st.nextId + |files| && r.store.attachments[k].eventId == id
    ensures r.Done? && (forall k :: k in st.attachments ==> k < st.nextId) ==>
              forall k :: k in st.attachments ==> k in r.store.attachments && r.store.attachments[k] == st.attachments[k]
  {
    if id !in st.events || st.events[id].createdById != actor.id then Failed(NotFound)
    else
      var recs := AttachmentRecords(id, files);
      Done(st.(attachments := InsertNumbered(st.attachments, recs, st.nextId), nextId := st.nextId + |files|), recs)
  }

  // ---------------------------------------------------------------------
  // submit

  /** `POST /api/events/:id/submit`: creator only, from ANY status; the
      conflict hint is recomputed against the whole store, the event itself
      included. Anyone else, and an absent event, gets 404. */
  function Submit(st: Store, actor: Actor, id: EventId): (r: Reply<Row>)
    ensures r.Failed? <==> id !in st.events || st.events[id].createdById != actor.id
    ensures r.Failed? ==> r.error == NotFound
    ensures r.Done? ==>
              var ev := st.events[id];
              && r.body.id == id
              && r.body.event == ev.(status := Submitted, conflict := r.body.event.conflict)
              && r.body.event.conflict == HasVenueConflict(st.events, ev.venueId, ev.startsAt, ev.endsAt)
              && r.store == st.(events := st.events[id := r.body.event])
  {
    if id !in st.events || st.events[id].createdById != actor.id then Failed(NotFound)
    else
      var ev := st.events[id];
      var conflict := HasVenueConflict(st.events, ev.venueId, ev.startsAt, ev.endsAt);
      var ev' := ev.(status := Submitted, conflict := conflict);
      Done(st.(events := st.events[id := ev']), Row(id, ev'))
  }

  /** Submitting a draft (or declined) event computes its hint as if the
      event were not stored at all: a first submission never conflicts
      with itself. */
  lemma FirstSubmissionIgnoresSelf(st: Store, actor: Actor, id: EventId)
    requires id in st.events && st.events[id].createdById == actor.id
    requires !Active(st.events[id].status)
    ensures Submit(st, actor, id).Done?
    ensures var ev := st.events[id];
            Submit(st, actor, id).body.event.conflict == HasVenueConflict(st.events - {id}, ev.venueId, ev.startsAt, ev.endsAt)
  {
    var ev := st.events[id];
    assert st.events == st.events[id := ev];
    InactiveNeverCounts(st.events, id, ev, ev.venueId, ev.startsAt, ev.endsAt);
  }

  /** Submitting an event that is already submitted or approved, with a
      non-empty window, flags it as conflicting with itself. */
  lemma {:induction false} ResubmitFlagsSelfConflict(st: Store, actor: Actor, id: EventId)
    requires id in st.events && st.events[id].createdById == actor.id
    requires Active(st.events[id].status)
    requires st.events[id].startsAt < st.events[id].endsAt
    ensures Submit(st, actor, id).Done?
    ensures Submit(st, actor, id).body.event.conflict
  {
    var ev := st.events[id];
    assert Blocks(ev, ev.venueId, ev.startsAt, ev.endsAt);
  }

  /** The creator can pull an approved event back to submitted; it stays
      public while pending. */
  lemma SubmitReopensApproved(st: Store, actor: Actor, id: EventId)
    requires id in st.events && st.events[id].createdById == actor.id
    requires st.events[id].status == Approved && st.events[id].visibility == Public
    ensures Submit(st, actor, id).Done?
    ensures Submit(st, actor, id).body.event.status == Submitted
    ensures Submit(st, actor, id).body.event.visibility == Public
  {
  }

  // ---------------------------------------------------------------------
  // decision

  /** The decision string the route accepts, as a status. */
  function DecisionStatus(decision: string): Option<Status> {
    if decision == "approved" then Some(Approved)
    else if decision == "declined" then Some(Declined)
    else None
  }

  /** `POST /api/events/:id/decision`: admins only; the decision must be
      "approved" or "declined"; the current status is not consulted. The
      update of an absent event throws in the store and is not handled. */
  function Decide(st: Store, actor: Actor, id: EventId, decision: string): (r: Reply<Row>)
    ensures !IsAdmin(actor) ==> r == Failed(Forbidden)
    ensures IsAdmin(actor) && decision !in {"approved", "declined"} ==> r == Failed(BadRequest)
    ensures IsAdmin(actor) && decision in {"approved", "declined"} && id !in st.events ==> r == Failed(Unhandled)
    ensures r.Done? <==> IsAdmin(actor) && decision in {"approved", "declined"} && id in st.events
    ensures r.Done? ==>
              && r.body.id == id
              && (r.body.event.status == Approved <==> decision == "approved")
              && (r.body.event.status == Declined <==> decision == "declined")
              && (r.body.event.visibility == Public <==> decision == "approved")
              && r.body.event == st.events[id].(status := r.body.event.status, visibility := r.body.event.visibility)
              && r.store == st.(events := st.events[id := r.body.event])
  {
    if !IsAdmin(actor) then Failed(Forbidden)
    else
      match DecisionStatus(decision)
      case None => Failed(BadRequest)
      case Some(status) =>
        if id !in st.events then Failed(Unhandled)
        else
          var ev' := st.events[id].(status := status, visibility := if decision == "approved" then Public else Private);
          Done(st.(events := st.events[id := ev']), Row(id, ev'))
  }

  /** A decision leaves status and visibility in step: public exactly when
      approved. */
  lemma DecisionAlignsVisibility(st: Store, actor: Actor, id: EventId, decision: string)
    requires Decide(st, actor, id, decision).Done?
    ensures var ev := Decide(st, actor, id, decision).store.events[id];
            ev.visibility == Public <==> ev.status == Approved
  {
  }

  /** Decisions overwrite each other: the last one wins, whatever came before. */
  lemma LastDecisionWins(st: Store, actor: Actor, id: EventId, d1: string, d2: string)
    requires Decide(st, actor, id, d1).Done?
    requires d2 in {"approved", "declined"}
    ensures Decide(Decide(st, actor, id, d1).store, actor, id, d2).Done?
    ensures Decide(Decide(st, actor, id, d1).store, actor, id, d2).store == Decide(st, actor, id, d2).store
  {
    var s1 := Decide(st, actor, id, d1).store;
    assert s1.events[id := Decide(s1, actor, id, d2).body.event] == st.events[id := Decide(st, actor, id, d2).body.event];
  }

  /** A declined event goes private, and its creator may still edit or
      delete it: only approval locks the creator out. */
  lemma DeclinedStaysEditable(st: Store, creator: Actor, admin: Actor, id: EventId, p: EditRequest)
    requires id in st.events && st.events[id].createdById == creator.id
    requires IsAdmin(admin)
    ensures var d := Decide(st, admin, id, "declined");
            && d.Done?
            && d.body.event.status == Declined
            && d.body.event.visibility == Private
            && Edit(d.store, creator, id, p).Done?
            && Delete(d.store, creator, id).Done?
  {
  }

  /** An approved booking of 10 to 12 in a venue: a submission for 11 to 13
      in that venue is flagged but still goes through; one for 12 to 13 is
      not flagged. */
  lemma {:induction false} VenueScenario()
    ensures var booked := Event("Talk", None, 1, 5, 10, 12, 100, Approved, Public, false, 9, 0);
            var overlapping := Event("Film", None, 1, 5, 11, 13, 50, Draft, Private, false, 2, 1);
            var adjacent := Event("Quiz", None, 1, 5, 12, 13, 50, Draft, Private, false, 2, 1);
            var st := Store(map[0 := booked, 1 := overlapping, 2 := adjacent], map[], map[], 3);
            var a := Submit(st, Actor(2, Student), 1);
            var b := Submit(st, Actor(2, Student), 2);
            && a.Done? && a.body.event.status == Submitted && a.body.event.conflict
            && b.Done? && b.body.event.status == Submitted && !b.body.event.conflict
  {
    var booked := Event("Talk", None, 1, 5, 10, 12, 100, Approved, Public, false, 9, 0);
    var overlapping := Event("Film", None, 1, 5, 11, 13, 50, Draft, Private, false, 2, 1);
    var adjacent := Event("Quiz", None, 1, 5, 12, 13, 50, Draft, Private, false, 2, 1);
    var events := map[0 := booked, 1 := overlapping, 2 := adjacent];
    assert Blocks(events[0], 5, 11, 13);
    forall id | id in events
      ensures !Blocks(events[id], 5, 12, 13)
    {
      assert id == 0 || id == 1 || id == 2;
    }
  }

  // ---------------------------------------------------------------------
  // edit

  /** The fields an edit writes: each supplied field replaces the stored
      one; status, conflict, creator and creation time are never touched. */
  function ApplyEdit(ev: Event, p: EditRequest): (ev': Event)
    ensures ev'.status == ev.status
    ensures ev'.conflict == ev.conflict
    ensures ev'.createdById == ev.createdById
    ensures ev'.createdAt == ev.createdAt
    ensures ev'.title == p.title.GetOr(ev.title)
    ensures ev'.description == p.description.GetOr(ev.description)
    ensures ev'.groupId == p.groupId.GetOr(ev.groupId)
    ensures ev'.venueId == p.venueId.GetOr(ev.venueId)
    ensures ev'.startsAt == p.startsAt.GetOr(ev.startsAt)
    ensures ev'.endsAt == p.endsAt.GetOr(ev.endsAt)
    ensures ev'.visibility == p.visibility.GetOr(ev.visibility)
    ensures p.expectedAttendance.Some? && p.expectedAttendance.value.JNumber? ==>
              ev'.expectedAttendance == p.expectedAttendance.value.n
    ensures ev'.expectedAttendance != ev.expectedAttendance ==>
              p.expectedAttendance.Some? && p.expectedAttendance.value == JNumber(ev'.expectedAttendance)
  {
    var attendance :=
      if p.expectedAttendance.Some? && p.expectedAttendance.value.JNumber? then p.expectedAttendance.value.n
      else ev.expectedAttendance;
    ev.(title := p.title.GetOr(ev.title),
        description := p.description.GetOr(ev.description),
        groupId := p.groupId.GetOr(ev.groupId),
        venueId := p.venueId.GetOr(ev.venueId),
        startsAt := p.startsAt.GetOr(ev.startsAt),
        endsAt := p.endsAt.GetOr(ev.endsAt),
        expectedAttendance := attendance,
        visibility := p.visibility.GetOr(ev.visibility))
  }

  /** `PATCH /api/events/:id`: 404 for an absent event, 403 unless
      MayModify, otherwise the supplied fields are written to that event
      and nothing else in the store changes. */
  function Edit(st: Store, actor: Actor, id: EventId, p: EditRequest): (r: Reply<Row>)
    ensures id !in st.events ==> r == Failed(NotFound)
    ensures id in st.events ==> (r.Done? <==> MayModify(actor, st.events[id]))
    ensures id in st.events && !MayModify(actor, st.events[id]) ==> r == Failed(Forbidden)
    ensures r.Done? ==>
              && r.body == Row(id, ApplyEdit(st.events[id], p))
              && r.store == st.(events := st.events[id := r.body.event])
  {
    if id !in st.events then Failed(NotFound)
    else if !MayModify(actor, st.events[id]) then Failed(Forbidden)
    else
      var ev' := ApplyEdit(st.events[id], p);
      Done(st.(events := st.events[id := ev']), Row(id, ev'))
  }

  /** An edit with no fields leaves the store exactly as it was. */
  lemma EmptyEditChangesNothing(st: Store, actor: Actor, id: EventId)
    requires id in st.events && MayModify(actor, st.events[id])
    ensures Edit(st, actor, id, NoEdit) == Done(st, Row(id, st.events[id]))
  {
    assert st.events[id := st.events[id]] == st.events;
  }

  /** An edit keeps the hint the event already had, even when the new
      venue or window would now conflict: moving a draft onto an approved
      booking leaves `conflict` false. */
  lemma EditLeavesConflictStale()
    ensures var approved := Event("Film night", None, 1, 7, 10, 12, 0, Approved, Public, false, 1, 0);
            var draft := Event("Debate", None, 2, 8, 10, 12, 0, Draft, Private, false, 2, 0);
            var st := Store(map[0 := approved, 1 := draft], map[], map[], 2);
            var moved := EditRequest(None, None, None, Some(7), None, None, None, None);
            var r := Edit(st, Actor(2, Student), 1, moved);
            && r.Done?
            && !r.body.event.conflict
            && HasVenueConflict(r.store.events - {1}, 7, 10, 12)
  {
    var approved := Event("Film night", None, 1, 7, 10, 12, 0, Approved, Public, false, 1, 0);
    var draft := Event("Debate", None, 2, 8, 10, 12, 0, Draft, Private, false, 2, 0);
    var st := Store(map[0 := approved, 1 := draft], map[], map[], 2);
    var moved := EditRequest(None, None, None, Some(7), None, None, None, None);
    var r := Edit(st, Actor(2, Student), 1, moved);
    assert 0 in r.store.events - {1} && Blocks((r.store.events - {1})[0], 7, 10, 12);
  }

  /** The creator may make a draft public by editing `visibility`: public
      visibility does not imply approval. */
  lemma EditCanPublishDraft(st: Store, actor: Actor, id: EventId)
    requires id in st.events && st.events[id].createdById == actor.id && st.events[id].status == Draft
    ensures var r := Edit(st, actor, id, NoEdit.(visibility := Some(Public)));
            r.Done? && r.body.event.visibility == Public && r.body.event.status == Draft
  {
  }

  // ---------------------------------------------------------------------
  // delete

  function AttachmentsWithout(m: map<RowId, Attachment>, id: EventId): map<RowId, Attachment> {
    map k | k in m && m[k].eventId != id :: m[k]
  }

  function ServicesWithout(m: map<RowId, EventService>, id: EventId): map<RowId, EventService> {
    map k | k in m && m[k].eventId != id :: m[k]
  }

  /** `DELETE /api/events/:id`: same permission as edit; removes the
      event's attachments, then its service rows, then the event. */
  function Delete(st: Store, actor: Actor, id: EventId): (r: Reply<()>)
    ensures id !in st.events ==> r == Failed(NotFound)
    ensures id in st.events ==> (r.Done? <==> MayModify(actor, st.events[id]))
    ensures id in st.events && !MayModify(actor, st.events[id]) ==> r == Failed(Forbidden)
    ensures r.Done? ==>
              && id !in r.store.events
              && r.store.events == st.events - {id}
              && r.store.nextId == st.nextId
              && (forall k :: k in r.store.attachments <==> k in st.attachments && st.attachments[k].eventId != id)
              && (forall k :: k in r.store.attachments ==> r.store.attachments[k] == st.attachments[k])
              && (forall k :: k in r.store.services <==> k in st.services && st.services[k].eventId != id)
              && (forall k :: k in r.store.services ==> r.store.services[k] == st.services[k])
  {
    if id !in st.events then Failed(NotFound)
    else if !MayModify(actor, st.events[id]) then Failed(Forbidden)
    else
      Done(Store(st.events - {id}, AttachmentsWithout(st.attachments, id), ServicesWithout(st.services, id), st.nextId), ())
  }

  /** Creating an event and deleting it again, as its creator, restores
      every table of a valid store. */
  lemma CreateThenDeleteRestores(st: Store, actor: Actor, req: CreateRequest, now: Time)
    requires st.Valid()
    requires !MissingRequired(req)
    ensures Create(st, actor, req, now).Done?
    ensures var c := Create(st, actor, req, now);
            var d := Delete(c.store, actor, c.body.id);
            && d.Done?
            && d.store.events == st.events
            && d.store.attachments == st.attachments
            && d.store.services == st.services
  {
    var c := Create(st, actor, req, now);
    DeleteUndoesInsert(st, c.store, actor, c.body.id);
  }

  /** Deleting an event that was just inserted into a valid store, along
      with service rows of its own, gives back the store's tables. */
  lemma DeleteUndoesInsert(st: Store, c: Store, actor: Actor, id: EventId)
    requires st.Valid()
    requires id !in st.events && id in c.events
    requires c.events == st.events[id := c.events[id]]
    requires c.attachments == st.attachments
    requires forall k :: k in st.services ==> k in c.services && c.services[k] == st.services[k]
    requires forall k :: k in c.services && k !in st.services ==> c.services[k].eventId == id
    requires MayModify(actor, c.events[id])
    ensures Delete(c, actor, id).Done?
    ensures Delete(c, actor, id).store.events == st.events
    ensures Delete(c, actor, id).store.attachments == st.attachments
    ensures Delete(c, actor, id).store.services == st.services
  {
    var d := Delete(c, actor, id).store;
    assert d.events == st.events;
    forall k | k in st.attachments
      ensures st.attachments[k].eventId != id
    {
    }
    assert d.attachments == st.attachments;
    forall k | k in st.services
      ensures st.services[k].eventId != id
    {
    }
    assert d.services == st.services;
  }

  // ---------------------------------------------------------------------
  // The store invariant

  lemma CreatePreservesValid(st: Store, actor: Actor, req: CreateRequest, now: Time)
    requires st.Valid()
    ensures Create(st, actor, req, now).Done? ==> Create(st, actor, req, now).store.Valid()
  {
  }

  lemma AddAttachmentsPreservesValid(st: Store, actor: Actor, id: EventId, files: seq<Upload>)
    requires st.Valid()
    ensures AddAttachments(st, actor, id, files).Done? ==> AddAttachments(st, actor, id, files).store.Valid()
  {
  }

  lemma SubmitPreservesValid(st: Store, actor: Actor, id: EventId)
    requires st.Valid()
    ensures Submit(st, actor, id).Done? ==> Submit(st, actor, id).store.Valid()
  {
  }

  lemma DecidePreservesValid(st: Store, actor: Actor, id: EventId, decision: string)
    requires st.Valid()
    ensures Decide(st, actor, id, decision).Done? ==> Decide(st, actor, id, decision).store.Valid()
  {
  }

  lemma EditPreservesValid(st: Store, actor: Actor, id: EventId, p: EditRequest)
    requires st.Valid()
    ensures Edit(st, actor, id, p).Done? ==> Edit(st, actor, id, p).store.Valid()
  {
  }

  /** The cascade leaves no attachment or service row pointing at the
      deleted event. */
  lemma DeletePreservesValid(st: Store, actor: Actor, id: EventId)
    requires st.Valid()
    ensures Delete(st, actor, id).Done? ==> Delete(st, actor, id).store.Valid()
  {
  }
}
