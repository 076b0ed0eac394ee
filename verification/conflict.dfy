/** The venue conflict detector: is some pending or approved event in the
    same venue booked across any instant of the half-open window [s, e)? */
module Conflict {
  import opened Base
  import opened Schema

  /** Statuses that hold a venue: pending and approved bookings. */
  predicate Active(s: Status) {
    s == Submitted || s == Approved
  }

  /** Half-open overlap of [s1, e1) and [s2, e2): touching ends do not overlap. */
  predicate Overlaps(s1: Time, e1: Time, s2: Time, e2: Time) {
    s1 < e2 && e1 > s2
  }

  /** Event `o` stands in the way of booking `venue` for [s, e). */
  predicate Blocks(o: Event, venue: VenueId, s: Time, e: Time) {
    && o.venueId == venue
    && Active(o.status)
    && Overlaps(o.startsAt, o.endsAt, s, e)
  }

  /** `hasVenueConflict(venueId, startsAt, endsAt)`. */
  predicate HasVenueConflict(events: map<EventId, Event>, venue: VenueId, s: Time, e: Time) {
    exists id :: id in events && Blocks(events[id], venue, s, e)
  }

  /** The store query behind the detector: find some blocking event, in no
      particular order, or report that there is none. */
  method FindOverlapping(events: map<EventId, Event>, venue: VenueId, s: Time, e: Time)
    returns (found: Option<EventId>)
    ensures found.Some? ==> found.value in events && Blocks(events[found.value], venue, s, e)
    ensures found.None? ==> forall id :: id in events ==> !Blocks(events[id], venue, s, e)
    ensures found.Some? <==> HasVenueConflict(events, venue, s, e)
  {
    var todo := events.Keys;
    while todo != {}
      invariant todo <= events.Keys
      invariant forall id :: id in events && id !in todo ==> !Blocks(events[id], venue, s, e)
      decreases todo
    {
      var id :| id in todo;
      if Blocks(events[id], venue, s, e) {
        return Some(id);
      }
      todo := todo - {id};
    }
    return None;
  }

  /** Bookings that share only an endpoint never conflict, in either order. */
  lemma BackToBackNeverBlocks(o: Event, venue: VenueId, s: Time, e: Time)
    requires o.endsAt == s || o.startsAt == e
    ensures !Blocks(o, venue, s, e)
  {
  }

  /** Overlap is symmetric: if active A blocks B's window then B blocks A's. */
  lemma BlocksSymmetric(a: Event, b: Event)
    requires Active(a.status) && Active(b.status)
    ensures Blocks(a, b.venueId, b.startsAt, b.endsAt) <==> Blocks(b, a.venueId, a.startsAt, a.endsAt)
  {
  }

  /** A draft or declined event never counts: storing it under `id` gives
      the same answer as leaving `id` out altogether. */
  lemma {:induction false} InactiveNeverCounts(events: map<EventId, Event>, id: EventId, o: Event, venue: VenueId, s: Time, e: Time)
    requires !Active(o.status)
    ensures HasVenueConflict(events[id := o], venue, s, e) <==> HasVenueConflict(events - {id}, venue, s, e)
  {
    if HasVenueConflict(events[id := o], venue, s, e) {
      var w :| w in events[id := o] && Blocks(events[id := o][w], venue, s, e);
      assert w != id;
      assert w in events - {id} && (events - {id})[w] == events[id := o][w];
    }
    if HasVenueConflict(events - {id}, venue, s, e) {
      var w :| w in events - {id} && Blocks((events - {id})[w], venue, s, e);
      assert w in events[id := o] && events[id := o][w] == (events - {id})[w];
    }
  }

  /** Removing an event can only clear a conflict, never create one. */
  lemma {:induction false} RemovalOnlyClears(events: map<EventId, Event>, id: EventId, venue: VenueId, s: Time, e: Time)
    requires HasVenueConflict(events - {id}, venue, s, e)
    ensures HasVenueConflict(events, venue, s, e)
  {
    var w :| w in events - {id} && Blocks((events - {id})[w], venue, s, e);
    assert w in events && events[w] == (events - {id})[w];
  }

  /** A conflict in a window stays a conflict in any window containing it. */
  lemma {:induction false} WiderWindowKeepsConflict(events: map<EventId, Event>, venue: VenueId, s: Time, e: Time, s': Time, e': Time)
    requires s' <= s && e <= e'
    requires HasVenueConflict(events, venue, s, e)
    ensures HasVenueConflict(events, venue, s', e')
  {
    var w :| w in events && Blocks(events[w], venue, s, e);
    assert Blocks(events[w], venue, s', e');
  }
}
