/** Shared vocabulary of the booking model: optional values, identifiers,
    time, and the error kinds the HTTP routes answer with. */
module Base {

  /** A value that may be absent: a JSON field left out of a request body,
      or a nullable column. */
  datatype Option<+T> = None | Some(value: T) {
    function GetOr(default: T): T {
      if Some? then value else default
    }
  }

  /** The error answers of the modelled routes.
      - BadRequest: HTTP 400, a required field is missing or malformed
      - Forbidden: HTTP 403, the actor's role or ownership does not allow it
      - NotFound: HTTP 404, the event is absent (or, on some routes, not the actor's)
      - Unhandled: the store throws and the route has no handler for it */
  datatype ApiError = BadRequest | Forbidden | NotFound | Unhandled

  /** The answer of a route that does not change the store. */
  datatype Result<+T> = Ok(value: T) | Err(error: ApiError)

  /** The answer of a guard: pass on, or stop with an error. */
  datatype Outcome = Pass | Fail(error: ApiError)

  /** Instants are integer milliseconds since the epoch. */
  type Time = int

  type UserId = nat
  type EventId = nat
  type GroupId = nat
  type VenueId = nat
  type ServiceId = nat
  /** Key of an attachment or event-service row. */
  type RowId = nat

  /** JavaScript truthiness of an optional string field: present and non-empty. */
  predicate Truthy(s: Option<string>) {
    s.Some? && s.value != ""
  }

  /** The `field || null` idiom: a falsy string is stored as null. */
  function OrNull(s: Option<string>): Option<string> {
    if Truthy(s) then s else None
  }

  /** A table with the items inserted one after another under consecutive
      keys from `first`: the new keys hold the items in insertion order,
      every other key keeps its row. */
  function InsertNumbered<T>(table: map<nat, T>, items: seq<T>, first: nat): (m: map<nat, T>)
    ensures forall k :: k in m <==> k in table || first <= k < first + |items|
    ensures forall k :: first <= k < first + |items| ==> m[k] == items[k - first]
    ensures forall i :: 0 <= i < |items| ==> first + i in m && m[first + i] == items[i]
    ensures forall k :: k in table && !(first <= k < first + |items|) ==> m[k] == table[k]
    decreases |items|
  {
    if items == [] then table
    else
      var n := |items| - 1;
      InsertNumbered(table, items[..n], first)[first + n := items[n]]
  }
}
