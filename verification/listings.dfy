/** The read-only event listings: the approved list ordered by start time,
    the admins' inbox of submissions ordered by creation time, and the
    creator's own list, newest first. All three are one filtered, sorted
    query over the event table. */
module Listings {
  import opened Base
  import opened Authz
  import opened Schema

  /** The `where` clause of a listing. */
  datatype Filter = WithStatus(status: Status) | CreatedBy(owner: UserId)

  /** The `orderBy` clause of a listing. */
  datatype Order = StartsAsc | CreatedAsc | CreatedDesc

  predicate Matches(ev: Event, f: Filter) {
    match f
    case WithStatus(s) => ev.status == s
    case CreatedBy(u) => ev.createdById == u
  }

  /** The sort key, negated for a descending order so that every listing
      is ascending in its key. */
  function Key(ev: Event, o: Order): int {
    match o
    case StartsAsc => ev.startsAt
    case CreatedAsc => ev.createdAt
    case CreatedDesc => -ev.createdAt
  }

  ghost predicate Sorted(rows: seq<Row>, o: Order) {
    forall i, j :: 0 <= i < j < |rows| ==> Key(rows[i].event, o) <= Key(rows[j].event, o)
  }

  ghost predicate Distinct(rows: seq<Row>) {
    forall i, j :: 0 <= i < j < |rows| ==> rows[i].id != rows[j].id
  }

  /** Every listed row is a stored event, under its own key, that passes the filter. */
  ghost predicate FromStore(events: map<EventId, Event>, rows: seq<Row>, f: Filter) {
    forall i :: 0 <= i < |rows| ==>
      rows[i].id in events && events[rows[i].id] == rows[i].event && Matches(rows[i].event, f)
  }

  ghost predicate Listed(rows: seq<Row>, id: EventId) {
    exists i :: 0 <= i < |rows| && rows[i].id == id
  }

  /** Exactly the stored events that pass the filter, each once, in order. */
  ghost predicate IsListing(events: map<EventId, Event>, rows: seq<Row>, f: Filter, o: Order) {
    && Sorted(rows, o)
    && Distinct(rows)
    && FromStore(events, rows, f)
    && (forall id :: id in events && Matches(events[id], f) ==> Listed(rows, id))
  }

  /** Where `x` goes in `rows`: after every row with a smaller key. */
  function InsertionPoint(rows: seq<Row>, x: Row, o: Order): (k: nat)
    ensures k <= |rows|
    ensures forall i :: 0 <= i < k ==> Key(rows[i].event, o) < Key(x.event, o)
    ensures k < |rows| ==> Key(x.event, o) <= Key(rows[k].event, o)
    decreases |rows|
  {
    if rows == [] || Key(x.event, o) <= Key(rows[0].event, o) then 0
    else 1 + InsertionPoint(rows[1..], x, o)
  }

  lemma InsertKeepsSorted(rows: seq<Row>, x: Row, k: nat, o: Order)
    requires k <= |rows| && Sorted(rows, o)
    requires forall i :: 0 <= i < k ==> Key(rows[i].event, o) < Key(x.event, o)
    requires k < |rows| ==> Key(x.event, o) <= Key(rows[k].event, o)
    ensures Sorted(rows[..k] + [x] + rows[k..], o)
  {
    var r := rows[..k] + [x] + rows[k..];
    forall i, j | 0 <= i < j < |r|
      ensures Key(r[i].event, o) <= Key(r[j].event, o)
    {
      if j < k {
        assert r[i] == rows[i] && r[j] == rows[j];
      } else if j == k {
        assert r[i] == rows[i];
      } else if i < k {
        assert r[i] == rows[i] && r[j] == rows[j - 1];
      } else if i == k {
        assert r[j] == rows[j - 1];
      } else {
        assert r[i] == rows[i - 1] && r[j] == rows[j - 1];
      }
    }
  }

  /** Inserting a new matching row at its insertion point keeps the
      partial listing sorted, duplicate-free and drawn from the store, and
      loses no row already listed. */
  lemma InsertRow(events: map<EventId, Event>, rows: seq<Row>, x: Row, k: nat, f: Filter, o: Order, done: set<EventId>)
    requires k <= |rows| && Sorted(rows, o) && Distinct(rows) && FromStore(events, rows, f)
    requires forall i :: 0 <= i < k ==> Key(rows[i].event, o) < Key(x.event, o)
    requires k < |rows| ==> Key(x.event, o) <= Key(rows[k].event, o)
    requires x.id in events && events[x.id] == x.event && Matches(x.event, f)
    requires forall i :: 0 <= i < |rows| ==> rows[i].id in done
    requires x.id !in done
    ensures var r := rows[..k] + [x] + rows[k..];
            && Sorted(r, o) && Distinct(r) && FromStore(events, r, f)
            && (forall i :: 0 <= i < |r| ==> r[i].id in done + {x.id})
            && Listed(r, x.id)
            && (forall id :: Listed(rows, id) ==> Listed(r, id))
  {
    InsertKeepsSorted(rows, x, k, o);
    var r := rows[..k] + [x] + rows[k..];
    assert forall i :: 0 <= i < k ==> r[i] == rows[i];
    assert forall i :: k < i < |r| ==> r[i] == rows[i - 1];
    assert r[k] == x;
    forall id | Listed(rows, id)
      ensures Listed(r, id)
    {
      var i :| 0 <= i < |rows| && rows[i].id == id;
      if i < k {
        assert r[i].id == id;
      } else {
        assert r[i + 1].id == id;
      }
    }
  }

  /** The store query `findMany({ where, orderBy })`: rows with equal keys
      come out in no particular order. */
  method Query(events: map<EventId, Event>, f: Filter, o: Order) returns (rows: seq<Row>)
    ensures IsListing(events, rows, f, o)
  {
    rows := [];
    var todo := events.Keys;
    while todo != {}
      invariant todo <= events.Keys
      invariant Sorted(rows, o) && Distinct(rows) && FromStore(events, rows, f)
      invariant forall i :: 0 <= i < |rows| ==> rows[i].id in events.Keys - todo
      invariant forall id :: id in events && id !in todo && Matches(events[id], f) ==> Listed(rows, id)
      decreases todo
    {
      var id :| id in todo;
      if Matches(events[id], f) {
        var x := Row(id, events[id]);
        var k := InsertionPoint(rows, x, o);
        InsertRow(events, rows, x, k, f, o, events.Keys - todo);
        rows := rows[..k] + [x] + rows[k..];
      }
      todo := todo - {id};
    }
  }

  /** `GET /api/events/approved`: every approved event and nothing else,
      earliest start first. */
  method ApprovedEvents(st: Store) returns (rows: seq<Row>)
    ensures Sorted(rows, StartsAsc) && Distinct(rows)
    ensures forall i :: 0 <= i < |rows| ==>
              rows[i].id in st.events && st.events[rows[i].id] == rows[i].event && rows[i].event.status == Approved
    ensures forall id :: id in st.events && st.events[id].status == Approved ==> Listed(rows, id)
  {
    rows := Query(st.events, WithStatus(Approved), StartsAsc);
  }

  /** `GET /api/inbox/submissions`: admins only; every submitted event and
      nothing else, oldest first. */
  method Inbox(st: Store, actor: Actor) returns (r: Result<seq<Row>>)
    ensures r.Err? <==> !IsAdmin(actor)
    ensures r.Err? ==> r.error == Forbidden
    ensures r.Ok? ==> Sorted(r.value, CreatedAsc) && Distinct(r.value)
    ensures r.Ok? ==> forall i :: 0 <= i < |r.value| ==>
              r.value[i].id in st.events && st.events[r.value[i].id] == r.value[i].event
              && r.value[i].event.status == Submitted
    ensures r.Ok? ==> forall id :: id in st.events && st.events[id].status == Submitted ==> Listed(r.value, id)
  {
    if !IsAdmin(actor) {
      return Err(Forbidden);
    }
    var rows := Query(st.events, WithStatus(Submitted), CreatedAsc);
    return Ok(rows);
  }

  /** `GET /api/my/events`: every event the actor created, in any status,
      newest first. */
  method MyEvents(st: Store, actor: Actor) returns (rows: seq<Row>)
    ensures Distinct(rows)
    ensures forall i, j :: 0 <= i < j < |rows| ==> rows[i].event.createdAt >= rows[j].event.createdAt
    ensures forall i :: 0 <= i < |rows| ==>
              rows[i].id in st.events && st.events[rows[i].id] == rows[i].event && rows[i].event.createdById == actor.id
    ensures forall id :: id in st.events && st.events[id].createdById == actor.id ==> Listed(rows, id)
  {
    rows := Query(st.events, CreatedBy(actor.id), CreatedDesc);
  }

  /** Only approved events reach the approved list: a draft, a pending
      submission or a declined event is never in it. */
  lemma ApprovedListExcludesOthers(st: Store, rows: seq<Row>, id: EventId)
    requires IsListing(st.events, rows, WithStatus(Approved), StartsAsc)
    requires id in st.events && st.events[id].status != Approved
    ensures !Listed(rows, id)
  {
  }

  /** Two listings of the same store list the same events. */
  lemma {:induction false} ListingsAgree(events: map<EventId, Event>, a: seq<Row>, b: seq<Row>, f: Filter, o: Order, id: EventId)
    requires IsListing(events, a, f, o) && IsListing(events, b, f, o)
    ensures Listed(a, id) <==> Listed(b, id)
  {
    if Listed(a, id) {
      var i :| 0 <= i < |a| && a[i].id == id;
      assert id in events && Matches(events[id], f);
    }
    if Listed(b, id) {
      var i :| 0 <= i < |b| && b[i].id == id;
      assert id in events && Matches(events[id], f);
    }
  }

  /** The sort keys of a sequence of rows, in order. */
  function KeySeq(rows: seq<Row>, o: Order): seq<int> {
    seq(|rows|, i requires 0 <= i < |rows| => Key(rows[i].event, o))
  }

  ghost predicate Ascending(ks: seq<int>) {
    forall i, j :: 0 <= i < j < |ks| ==> ks[i] <= ks[j]
  }

  /** In a sequence without repeats every element occurs once. */
  lemma {:induction false} DistinctCounts(rows: seq<Row>)
    requires forall i, j :: 0 <= i < j < |rows| ==> rows[i] != rows[j]
    ensures forall x :: multiset(rows)[x] == if x in rows then 1 else 0
  {
    if rows != [] {
      DistinctCounts(rows[1..]);
      assert rows == [rows[0]] + rows[1..];
      assert rows[0] !in rows[1..];
    }
  }

  /** Removing the element at `j` removes one occurrence of it. */
  lemma MultisetWithout<T>(y: seq<T>, j: nat)
    requires j < |y|
    ensures multiset(y) == multiset(y[..j] + y[j + 1..]) + multiset{y[j]}
  {
    assert y == y[..j] + [y[j]] + y[j + 1..];
  }

  lemma MultisetCancel<T>(m1: multiset<T>, m2: multiset<T>, e: T)
    requires m1 + multiset{e} == m2 + multiset{e}
    ensures m1 == m2
  {
    forall z ensures m1[z] == m2[z] {
      assert (m1 + multiset{e})[z] == (m2 + multiset{e})[z];
    }
  }

  /** Removing the row at `j` removes one occurrence of its key. */
  lemma KeysWithout(y: seq<Row>, j: nat, o: Order)
    requires j < |y|
    ensures multiset(KeySeq(y, o)) == multiset(KeySeq(y[..j] + y[j + 1..], o)) + multiset{Key(y[j].event, o)}
  {
    var ky := KeySeq(y, o);
    assert KeySeq(y[..j] + y[j + 1..], o) == ky[..j] + ky[j + 1..];
    MultisetWithout(ky, j);
  }

  lemma KeysOfTail(x: seq<Row>, o: Order)
    requires x != []
    ensures multiset(KeySeq(x, o)) == multiset(KeySeq(x[1..], o)) + multiset{Key(x[0].event, o)}
  {
    var kx := KeySeq(x, o);
    assert kx == [kx[0]] + KeySeq(x[1..], o);
  }

  /** Permuting rows permutes their keys. */
  lemma {:induction false} KeysPermute(x: seq<Row>, y: seq<Row>, o: Order)
    requires multiset(x) == multiset(y)
    ensures multiset(KeySeq(x, o)) == multiset(KeySeq(y, o))
    decreases |x|
  {
    if x == [] {
      assert |y| == |multiset(y)| == 0;
    } else {
      assert x[0] in multiset(y);
      var j :| 0 <= j < |y| && y[j] == x[0];
      var y' := y[..j] + y[j + 1..];
      assert x == [x[0]] + x[1..];
      assert multiset(x) == multiset(x[1..]) + multiset{x[0]};
      MultisetWithout(y, j);
      MultisetCancel(multiset(x[1..]), multiset(y'), x[0]);
      KeysPermute(x[1..], y', o);
      KeysOfTail(x, o);
      KeysWithout(y, j, o);
    }
  }

  lemma AscendingTail(x: seq<int>)
    requires x != [] && Ascending(x)
    ensures Ascending(x[1..])
  {
    forall i, j | 0 <= i < j < |x| - 1
      ensures x[1..][i] <= x[1..][j]
    {
      assert x[1..][i] == x[i + 1] && x[1..][j] == x[j + 1];
    }
  }

  lemma SortedKeysAscend(rows: seq<Row>, o: Order)
    requires Sorted(rows, o)
    ensures Ascending(KeySeq(rows, o))
  {
  }

  /** The head of an ascending sequence is its least element. */
  lemma HeadIsLeast(x: seq<int>, v: int)
    requires Ascending(x) && v in multiset(x)
    ensures x[0] <= v
  {
    var j :| 0 <= j < |x| && x[j] == v;
    assert j == 0 || x[0] <= x[j];
  }

  /** Equal multisets with equal heads have equal tails. */
  lemma TailsPermute<T>(x: seq<T>, y: seq<T>)
    requires x != [] && y != [] && x[0] == y[0] && multiset(x) == multiset(y)
    ensures multiset(x[1..]) == multiset(y[1..])
  {
    assert x == [x[0]] + x[1..];
    assert y == [y[0]] + y[1..];
    assert multiset(x) == multiset(x[1..]) + multiset{x[0]};
    assert multiset(y) == multiset(y[1..]) + multiset{y[0]};
    MultisetCancel(multiset(x[1..]), multiset(y[1..]), x[0]);
  }

  /** A multiset has one ascending arrangement. */
  lemma {:induction false} AscendingUnique(x: seq<int>, y: seq<int>)
    requires Ascending(x) && Ascending(y) && multiset(x) == multiset(y)
    ensures x == y
    decreases |x|
  {
    assert |y| == |multiset(y)| == |x|;
    if x != [] {
      HeadIsLeast(y, x[0]);
      HeadIsLeast(x, y[0]);
      TailsPermute(x, y);
      AscendingTail(x);
      AscendingTail(y);
      AscendingUnique(x[1..], y[1..]);
      assert x == [x[0]] + x[1..] && y == [y[0]] + y[1..];
    }
  }

  /** Two listings of the same store hold the same rows, each once. */
  lemma {:induction false} ListingsSameRows(events: map<EventId, Event>, a: seq<Row>, b: seq<Row>, f: Filter, o: Order)
    requires IsListing(events, a, f, o) && IsListing(events, b, f, o)
    ensures multiset(a) == multiset(b)
  {
    forall x | x in a ensures x in b {
      var i :| 0 <= i < |a| && a[i] == x;
      assert Listed(b, x.id);
      var j :| 0 <= j < |b| && b[j].id == x.id;
      assert b[j] == x;
    }
    forall x | x in b ensures x in a {
      var j :| 0 <= j < |b| && b[j] == x;
      assert Listed(a, x.id);
      var i :| 0 <= i < |a| && a[i].id == x.id;
      assert a[i] == x;
    }
    assert forall i, j :: 0 <= i < j < |a| ==> a[i].id != a[j].id;
    assert forall i, j :: 0 <= i < j < |b| ==> b[i].id != b[j].id;
    DistinctCounts(a);
    DistinctCounts(b);
    assert forall x :: multiset(a)[x] == multiset(b)[x];
  }

  /** Two sorted arrangements of the same rows have the same key at every position. */
  lemma {:induction false} SortedPermutationsAgree(a: seq<Row>, b: seq<Row>, o: Order)
    requires Sorted(a, o) && Sorted(b, o) && multiset(a) == multiset(b)
    ensures KeySeq(a, o) == KeySeq(b, o)
  {
    KeysPermute(a, b, o);
    SortedKeysAscend(a, o);
    SortedKeysAscend(b, o);
    AscendingUnique(KeySeq(a, o), KeySeq(b, o));
  }

  /** A listing is determined up to the order of rows with equal keys: two
      listings of the same store have the same length and the same key at
      every position. */
  lemma {:induction false} ListingsHaveSameKeys(events: map<EventId, Event>, a: seq<Row>, b: seq<Row>, f: Filter, o: Order)
    requires IsListing(events, a, f, o) && IsListing(events, b, f, o)
    ensures |a| == |b|
    ensures forall i :: 0 <= i < |a| ==> Key(a[i].event, o) == Key(b[i].event, o)
  {
    ListingsSameRows(events, a, b, f, o);
    SortedPermutationsAgree(a, b, o);
    var ka, kb := KeySeq(a, o), KeySeq(b, o);
    assert |a| == |ka| == |kb| == |b|;
    forall i | 0 <= i < |a|
      ensures Key(a[i].event, o) == Key(b[i].event, o)
    {
      assert ka[i] == Key(a[i].event, o) && kb[i] == Key(b[i].event, o);
    }
  }
}
