/**
 * The backend's event routes over an abstract store: the table of events
 * as a sequence of rows, each owned by one user. Every route works only on
 * the caller's rows. Reads filter and order the rows as the SQL does;
 * create, update and delete give the next store and what the route
 * returns, or "Event not found" (HTTP 404).
 */
module EventsRouter {
  import opened Wrappers
  import opened CivilDate

  /** A stored event. Times of day are seconds since midnight; the stamps are opaque clock readings. */
  datatype Row = Row(
    id: int,
    owner: int,
    title: string,
    description: Option<string>,
    date: Date,
    start: int,
    end: int,
    notifyBefore: int,
    createdAt: int,
    updatedAt: int)

  /** The one error the routes raise themselves: 404, "Event not found". */
  datatype Error = NotFound

  /** The table: ids are unique, as the database's key makes them. */
  predicate UniqueIds(store: seq<Row>) {
    forall i, j :: 0 <= i < |store| && 0 <= j < |store| && store[i].id == store[j].id ==> i == j
  }

  /** The `WHERE` clauses of the read routes. */
  datatype Query =
    | OwnedBy(user: int)
    | OnDate(user: int, day: Date)
    | FromDate(user: int, first: Date)
    | InMonth(user: int, year: int, month: int)

  predicate Matches(q: Query, x: Row) {
    x.owner == q.user &&
    match q
    case OwnedBy(_) => true
    case OnDate(_, day) => x.date == day
    case FromDate(_, first) => !Before(x.date, first)
    case InMonth(_, year, month) => x.date.year == year && x.date.month == month
  }

  /** The rows a query selects, in table order. */
  function Select(store: seq<Row>, q: Query): (r: seq<Row>)
    ensures |r| <= |store|
    ensures forall i :: 0 <= i < |r| ==> Matches(q, r[i])
  {
    if store == [] then []
    else
      var rest := Select(store[1..], q);
      if Matches(q, store[0]) then [store[0]] + rest else rest
  }

  /** A query selects exactly the matching rows, each as often as it is stored. */
  lemma {:induction false} SelectCounts(store: seq<Row>, q: Query)
    ensures forall x :: multiset(Select(store, q))[x] == if Matches(q, x) then multiset(store)[x] else 0
  {
    if store != [] {
      SelectCounts(store[1..], q);
      assert store == [store[0]] + store[1..];
    }
  }

  lemma SelectMembers(store: seq<Row>, q: Query)
    ensures forall x :: x in Select(store, q) <==> x in store && Matches(q, x)
  {
    SelectCounts(store, q);
    forall x
      ensures x in Select(store, q) <==> x in store && Matches(q, x)
    {
      assert x in Select(store, q) <==> multiset(Select(store, q))[x] > 0;
      assert x in store <==> multiset(store)[x] > 0;
    }
  }

  /** Selecting from a table with one more row. */
  lemma {:induction false} SelectAppend(a: seq<Row>, b: seq<Row>, q: Query)
    ensures Select(a + b, q) == Select(a, q) + Select(b, q)
  {
    if a == [] {
      assert a + b == b;
    } else {
      assert (a + b)[1..] == a[1..] + b;
      SelectAppend(a[1..], b, q);
    }
  }

  /** `ORDER BY event_date, start_time`: earlier date first, then earlier start. */
  predicate KeyLeq(a: Row, b: Row) {
    Before(a.date, b.date) || (a.date == b.date && a.start <= b.start)
  }

  predicate Sorted(s: seq<Row>) {
    forall i, j :: 0 <= i < j < |s| ==> KeyLeq(s[i], s[j])
  }

  lemma KeyLeqTotal(a: Row, b: Row)
    ensures KeyLeq(a, b) || KeyLeq(b, a)
  {
  }

  lemma KeyLeqTransitive(a: Row, b: Row, c: Row)
    requires KeyLeq(a, b) && KeyLeq(b, c)
    ensures KeyLeq(a, c)
  {
  }

  /** Puts `x` before the first row that does not come before it. */
  function Insert(x: Row, s: seq<Row>): (r: seq<Row>)
    ensures multiset(r) == multiset(s) + multiset{x}
  {
    if s == [] || KeyLeq(x, s[0]) then [x] + s
    else
      assert s == [s[0]] + s[1..];
      [s[0]] + Insert(x, s[1..])
  }

  lemma {:induction false} InsertSorted(x: Row, s: seq<Row>)
    requires Sorted(s)
    ensures Sorted(Insert(x, s))
  {
    var r := Insert(x, s);
    if s == [] || KeyLeq(x, s[0]) {
      forall j | 1 <= j < |r|
        ensures KeyLeq(r[0], r[j])
      {
        if j > 1 {
          KeyLeqTransitive(x, s[0], s[j - 1]);
        }
      }
    } else {
      var t := Insert(x, s[1..]);
      InsertSorted(x, s[1..]);
      KeyLeqTotal(x, s[0]);
      forall j | 0 <= j < |t|
        ensures KeyLeq(s[0], t[j])
      {
        assert t[j] in multiset(t);
        if t[j] != x {
          assert t[j] in multiset(s[1..]);
          var k :| 0 <= k < |s[1..]| && s[1..][k] == t[j];
          assert s[k + 1] == t[j];
        }
      }
      assert r == [s[0]] + t;
    }
  }

  /** The rows in key order (ties in table order; SQL leaves their order open). */
  function Sort(s: seq<Row>): (r: seq<Row>)
    ensures multiset(r) == multiset(s)
    ensures Sorted(r)
  {
    if s == [] then []
    else
      var rest := Sort(s[1..]);
      InsertSorted(s[0], rest);
      assert s == [s[0]] + s[1..];
      Insert(s[0], rest)
  }

  /** Sorting is a permutation, so a sorted query holds exactly the matching rows. */
  lemma SortSelectMembers(store: seq<Row>, q: Query)
    ensures forall x :: x in Sort(Select(store, q)) <==> x in store && Matches(q, x)
  {
    SelectMembers(store, q);
    forall x
      ensures x in Sort(Select(store, q)) <==> x in Select(store, q)
    {
      assert x in Sort(Select(store, q)) <==> x in multiset(Sort(Select(store, q)));
    }
  }

  /** Every row of a sorted query matches it. */
  lemma SortSelectMatches(store: seq<Row>, q: Query)
    ensures forall i :: 0 <= i < |Sort(Select(store, q))| ==> Matches(q, Sort(Select(store, q))[i])
  {
    var r := Sort(Select(store, q));
    forall i | 0 <= i < |r|
      ensures Matches(q, r[i])
    {
      assert r[i] in multiset(Select(store, q));
    }
  }

  /** GET /events: the caller's rows, by date and start time. */
  function AllEvents(store: seq<Row>, user: int): (r: seq<Row>)
    ensures Sorted(r)
    ensures multiset(r) == multiset(Select(store, OwnedBy(user)))
  {
    Sort(Select(store, OwnedBy(user)))
  }

  /** GET /events/date/{d}: the caller's rows on that date, by start time. */
  function EventsByDate(store: seq<Row>, user: int, day: Date): (r: seq<Row>)
    ensures forall i :: 0 <= i < |r| ==> r[i].owner == user && r[i].date == day
    ensures forall i, j :: 0 <= i < j < |r| ==> r[i].start <= r[j].start
    ensures multiset(r) == multiset(Select(store, OnDate(user, day)))
  {
    SortSelectMatches(store, OnDate(user, day));
    Sort(Select(store, OnDate(user, day)))
  }

  /** GET /events/today: the by-date route for the server's date, passed in as `today`. */
  function TodaysEvents(store: seq<Row>, user: int, today: Date): (r: seq<Row>)
    ensures forall i :: 0 <= i < |r| ==> r[i].owner == user && r[i].date == today
    ensures forall i, j :: 0 <= i < j < |r| ==> r[i].start <= r[j].start
    ensures multiset(r) == multiset(Select(store, OnDate(user, today)))
  {
    EventsByDate(store, user, today)
  }

  /** The most rows the upcoming route returns. */
  const UpcomingLimit := 20

  /** GET /events/upcoming: the first 20 of the caller's rows dated today or later, by date and time. */
  function UpcomingEvents(store: seq<Row>, user: int, today: Date): (r: seq<Row>)
    ensures |r| <= UpcomingLimit && Sorted(r)
    ensures forall i :: 0 <= i < |r| ==> r[i].owner == user && !Before(r[i].date, today)
    ensures multiset(r) <= multiset(Select(store, FromDate(user, today)))
    ensures var n := |Select(store, FromDate(user, today))|; |r| == if n <= UpcomingLimit then n else UpcomingLimit
  {
    var all := Sort(Select(store, FromDate(user, today)));
    SortSelectMatches(store, FromDate(user, today));
    assert |all| == |Select(store, FromDate(user, today))| by {
      assert |multiset(all)| == |multiset(Select(store, FromDate(user, today)))|;
    }
    if |all| <= UpcomingLimit then all
    else
      assert all == all[..UpcomingLimit] + all[UpcomingLimit..];
      assert multiset(all) == multiset(all[..UpcomingLimit]) + multiset(all[UpcomingLimit..]);
      all[..UpcomingLimit]
  }

  /**
   * The limit keeps the earliest: a qualifying row left out comes after
   * every row returned, and only when 20 were returned.
   */
  lemma UpcomingAreEarliest(store: seq<Row>, user: int, today: Date, y: Row)
    requires y in store && y.owner == user && !Before(y.date, today)
    requires y !in UpcomingEvents(store, user, today)
    ensures |UpcomingEvents(store, user, today)| == UpcomingLimit
    ensures forall i :: 0 <= i < UpcomingLimit ==> KeyLeq(UpcomingEvents(store, user, today)[i], y)
  {
    var all := Sort(Select(store, FromDate(user, today)));
    SortSelectMembers(store, FromDate(user, today));
    var j :| 0 <= j < |all| && all[j] == y;
    var r := UpcomingEvents(store, user, today);
    if |all| <= UpcomingLimit {
      assert false;
    }
    if j < UpcomingLimit {
      assert false;
    }
  }

  /** GET /events/month/{y}/{m}: the caller's rows in that month, by date and time. */
  function EventsByMonth(store: seq<Row>, user: int, year: int, month: int): (r: seq<Row>)
    ensures Sorted(r)
    ensures multiset(r) == multiset(Select(store, InMonth(user, year, month)))
  {
    Sort(Select(store, InMonth(user, year, month)))
  }

  /** The caller sees all of their rows and no one else's. */
  lemma AllEventsMembers(store: seq<Row>, user: int)
    ensures forall x :: x in AllEvents(store, user) <==> x in store && x.owner == user
  {
    SortSelectMembers(store, OwnedBy(user));
  }

  /** The by-date route lists every row of the caller's on that date. */
  lemma EventsByDateMembers(store: seq<Row>, user: int, day: Date)
    ensures forall x :: x in EventsByDate(store, user, day) <==> x in store && x.owner == user && x.date == day
  {
    SortSelectMembers(store, OnDate(user, day));
  }

  /** The by-month route lists exactly the caller's rows dated in that year and month. */
  lemma EventsByMonthMembers(store: seq<Row>, user: int, year: int, month: int)
    ensures forall x :: x in EventsByMonth(store, user, year, month)
                        <==> x in store && x.owner == user && x.date.year == year && x.date.month == month
  {
    SortSelectMembers(store, InMonth(user, year, month));
  }

  /** With at most 20 qualifying rows the limit cuts nothing: all of them are returned. */
  lemma UpcomingAllWhenFew(store: seq<Row>, user: int, today: Date)
    requires |Select(store, FromDate(user, today))| <= UpcomingLimit
    ensures forall x :: x in UpcomingEvents(store, user, today) <==> x in store && x.owner == user && !Before(x.date, today)
  {
    SortSelectMembers(store, FromDate(user, today));
    assert |Sort(Select(store, FromDate(user, today)))| <= UpcomingLimit by {
      assert |multiset(Sort(Select(store, FromDate(user, today))))| == |multiset(Select(store, FromDate(user, today)))|;
    }
  }

  /** The first row with the id that the caller owns. */
  function Find(store: seq<Row>, user: int, id: int): (r: Option<nat>)
    ensures r.Some? ==> r.value < |store| && store[r.value].id == id && store[r.value].owner == user
    ensures r.None? <==> forall i :: 0 <= i < |store| ==> !(store[i].id == id && store[i].owner == user)
  {
    if store == [] then None
    else if store[0].id == id && store[0].owner == user then Some(0)
    else match Find(store[1..], user, id)
      case Some(k) => Some(k + 1)
      case None => None
  }

  /** GET /events/{id}: the caller's row with the id, or 404 (another user's row is not found either). */
  function GetEvent(store: seq<Row>, user: int, id: int): (r: Result<Row, Error>)
    ensures r.Success? ==> r.value in store && r.value.id == id && r.value.owner == user
    ensures r.Failure? <==> forall x :: x in store ==> !(x.id == id && x.owner == user)
  {
    match Find(store, user, id)
    case Some(k) => Success(store[k])
    case None => Failure(NotFound)
  }

  /** The body of POST /events. */
  datatype NewEvent = NewEvent(
    title: string,
    description: Option<string>,
    date: Date,
    start: int,
    end: int,
    notifyBefore: Option<int>)

  /** `event.notify_before or 10`: no value, and the falsy 0, both store 10. */
  function NotifyOrDefault(n: Option<int>): (r: int)
    ensures r == 10 <==> n.None? || n == Some(0) || n == Some(10)
    ensures n.Some? && n.value != 0 ==> r == n.value
  {
    match n
    case Some(v) => if v == 0 then 10 else v
    case None => 10
  }

  /** A new store and the row a write produced. */
  datatype Written = Written(store: seq<Row>, row: Row)

  /**
   * POST /events: a row owned by the caller, with the next id the database
   * hands out (`newId`, not used by any row) and the clock's `now` as both
   * stamps, appended to the table and returned.
   */
  function CreateEvent(store: seq<Row>, user: int, e: NewEvent, newId: int, now: int): (r: Written)
    requires forall x :: x in store ==> x.id != newId
    ensures r.store == store + [r.row]
    ensures r.row.id == newId && r.row.owner == user
    ensures r.row.title == e.title && r.row.description == e.description && r.row.date == e.date
    ensures r.row.start == e.start && r.row.end == e.end
    ensures r.row.notifyBefore == NotifyOrDefault(e.notifyBefore)
    ensures r.row.createdAt == now && r.row.updatedAt == now
    ensures UniqueIds(store) ==> UniqueIds(r.store)
  {
    var row := Row(newId, user, e.title, e.description, e.date, e.start, e.end, NotifyOrDefault(e.notifyBefore), now, now);
    assert forall i :: 0 <= i < |store| ==> store[i] in store;
    Written(store + [row], row)
  }

  /** A created event is then found by its owner. */
  lemma CreateThenGet(store: seq<Row>, user: int, e: NewEvent, newId: int, now: int)
    requires forall x :: x in store ==> x.id != newId
    ensures var w := CreateEvent(store, user, e, newId, now);
      GetEvent(w.store, user, newId) == Success(w.row)
  {
    var w := CreateEvent(store, user, e, newId, now);
    assert Find(w.store, user, newId) == Some(|store|) by {
      FindAppend(store, [w.row], user, newId);
      assert forall i :: 0 <= i < |store| ==> store[i] in store;
    }
  }

  lemma {:induction false} FindAppend(a: seq<Row>, b: seq<Row>, user: int, id: int)
    requires Find(a, user, id).None?
    ensures Find(a + b, user, id) == match Find(b, user, id) case Some(k) => Some(|a| + k) case None => None
  {
    if a != [] {
      assert (a + b)[1..] == a[1..] + b;
      FindAppend(a[1..], b, user, id);
    } else {
      assert a + b == b;
    }
  }

  /** The body of PUT /events/{id}: `None` for a field not supplied. */
  datatype EventUpdate = EventUpdate(
    title: Option<string>,
    description: Option<string>,
    date: Option<Date>,
    start: Option<int>,
    end: Option<int>,
    notifyBefore: Option<int>)

  /** Whether the update supplies any field. */
  predicate AnyField(u: EventUpdate) {
    u.title.Some? || u.description.Some? || u.date.Some? || u.start.Some? || u.end.Some? || u.notifyBefore.Some?
  }

  /** The row after `UPDATE … SET` with the supplied fields and `updated_at = NOW()`. */
  function Apply(x: Row, u: EventUpdate, now: int): (r: Row)
    requires AnyField(u)
    ensures r.id == x.id && r.owner == x.owner && r.createdAt == x.createdAt
    ensures r.title == u.title.GetOr(x.title)
    ensures r.description == (if u.description.Some? then u.description else x.description)
    ensures r.date == u.date.GetOr(x.date)
    ensures r.start == u.start.GetOr(x.start) && r.end == u.end.GetOr(x.end)
    ensures r.notifyBefore == u.notifyBefore.GetOr(x.notifyBefore)
    ensures r.updatedAt == now
  {
    x.(title := u.title.GetOr(x.title),
       description := if u.description.Some? then u.description else x.description,
       date := u.date.GetOr(x.date),
       start := u.start.GetOr(x.start),
       end := u.end.GetOr(x.end),
       notifyBefore := u.notifyBefore.GetOr(x.notifyBefore),
       updatedAt := now)
  }

  /** Every row with the id and owner rewritten, the rest left alone. */
  function ReplaceMatching(store: seq<Row>, user: int, id: int, u: EventUpdate, now: int): (r: seq<Row>)
    requires AnyField(u)
    ensures |r| == |store|
    ensures forall i :: 0 <= i < |store| ==>
      r[i] == if store[i].id == id && store[i].owner == user then Apply(store[i], u, now) else store[i]
  {
    if store == [] then []
    else
      var rest := ReplaceMatching(store[1..], user, id, u, now);
      [if store[0].id == id && store[0].owner == user then Apply(store[0], u, now) else store[0]] + rest
  }

  /**
   * PUT /events/{id}: 404 unless the caller owns a row with the id; with
   * no field supplied the row is returned as stored; otherwise the
   * supplied fields change, `updated_at` becomes `now`, and the new row is
   * returned.
   */
  function UpdateEvent(store: seq<Row>, user: int, id: int, u: EventUpdate, now: int): (r: Result<Written, Error>)
    ensures r.Failure? <==> GetEvent(store, user, id).Failure?
    ensures r.Success? && !AnyField(u) ==> r.value == Written(store, GetEvent(store, user, id).value)
    ensures r.Success? && AnyField(u) ==> r.value.row == Apply(GetEvent(store, user, id).value, u, now)
  {
    match Find(store, user, id)
    case None => Failure(NotFound)
    case Some(k) =>
      if !AnyField(u) then Success(Written(store, store[k]))
      else Success(Written(ReplaceMatching(store, user, id, u, now), Apply(store[k], u, now)))
  }

  /**
   * An update changes the caller's row with the id and nothing else: every
   * other row stays, and the ids stay unique.
   */
  lemma UpdateKeepsOthers(store: seq<Row>, user: int, id: int, u: EventUpdate, now: int)
    requires UpdateEvent(store, user, id, u, now).Success?
    ensures var s := UpdateEvent(store, user, id, u, now).value.store;
      && |s| == |store|
      && (forall i :: 0 <= i < |store| && !(store[i].id == id && store[i].owner == user) ==> s[i] == store[i])
      && (UniqueIds(store) ==> UniqueIds(s))
  {
  }

  /** `updated_at` moves exactly when a field was supplied. */
  lemma UpdateTouchesStamp(store: seq<Row>, user: int, id: int, u: EventUpdate, now: int)
    requires UpdateEvent(store, user, id, u, now).Success?
    requires GetEvent(store, user, id).value.updatedAt != now
    ensures UpdateEvent(store, user, id, u, now).value.row.updatedAt == now <==> AnyField(u)
  {
  }

  /** With unique ids, the stored row after an update is the row the route returned. */
  lemma UpdateThenGet(store: seq<Row>, user: int, id: int, u: EventUpdate, now: int)
    requires UniqueIds(store) && UpdateEvent(store, user, id, u, now).Success?
    ensures var w := UpdateEvent(store, user, id, u, now).value;
      GetEvent(w.store, user, id) == Success(w.row)
  {
    var w := UpdateEvent(store, user, id, u, now).value;
    var k := Find(store, user, id).value;
    if AnyField(u) {
      var k2 := Find(w.store, user, id);
      assert w.store[k] == Apply(store[k], u, now);
      if k2.None? {
        assert false;
      }
      assert store[k2.value].id == id;
    }
  }

  /** Every row but those with the id and owner. */
  function RemoveMatching(store: seq<Row>, user: int, id: int): (r: seq<Row>)
    ensures |r| <= |store|
    ensures forall i :: 0 <= i < |r| ==> !(r[i].id == id && r[i].owner == user)
  {
    if store == [] then []
    else
      var rest := RemoveMatching(store[1..], user, id);
      if store[0].id == id && store[0].owner == user then rest else [store[0]] + rest
  }

  /** Deleting keeps exactly the rows that do not match, each as often as it was stored. */
  lemma {:induction false} RemoveMatchingCounts(store: seq<Row>, user: int, id: int)
    ensures forall x :: multiset(RemoveMatching(store, user, id))[x]
                        == if x.id == id && x.owner == user then 0 else multiset(store)[x]
  {
    if store != [] {
      RemoveMatchingCounts(store[1..], user, id);
      assert store == [store[0]] + store[1..];
    }
  }

  /** DELETE /events/{id}: 404 when the caller owns no row with the id; otherwise that row goes. */
  function DeleteEvent(store: seq<Row>, user: int, id: int): (r: Result<seq<Row>, Error>)
    ensures r.Failure? <==> GetEvent(store, user, id).Failure?
    ensures r.Success? ==> |r.value| < |store|
  {
    match Find(store, user, id)
    case None => Failure(NotFound)
    case Some(k) =>
      RemoveMatchingShrinks(store, user, id, k);
      Success(RemoveMatching(store, user, id))
  }

  lemma {:induction false} RemoveMatchingShrinks(store: seq<Row>, user: int, id: int, k: nat)
    requires k < |store| && store[k].id == id && store[k].owner == user
    ensures |RemoveMatching(store, user, id)| < |store|
  {
    if k > 0 {
      RemoveMatchingShrinks(store[1..], user, id, k - 1);
    }
  }

  /** After a delete the row is gone for its owner, and every other row is still there. */
  lemma DeleteThenGet(store: seq<Row>, user: int, id: int)
    requires DeleteEvent(store, user, id).Success?
    ensures var s := DeleteEvent(store, user, id).value;
      && GetEvent(s, user, id) == Failure(NotFound)
      && forall x :: x in store && !(x.id == id && x.owner == user) ==> x in s
  {
    var s := DeleteEvent(store, user, id).value;
    RemoveMatchingCounts(store, user, id);
    forall x | x in store && !(x.id == id && x.owner == user)
      ensures x in s
    {
      assert multiset(store)[x] > 0;
    }
  }

  /** A write by one user leaves what every other user reads unchanged. */
  lemma CreateIsolated(store: seq<Row>, user: int, e: NewEvent, newId: int, now: int, other: int)
    requires forall x :: x in store ==> x.id != newId
    requires other != user
    ensures AllEvents(CreateEvent(store, user, e, newId, now).store, other) == AllEvents(store, other)
  {
    var w := CreateEvent(store, user, e, newId, now);
    SelectAppend(store, [w.row], OwnedBy(other));
    assert Select([w.row], OwnedBy(other)) == [];
    assert Select(store, OwnedBy(other)) + [] == Select(store, OwnedBy(other));
  }

  lemma {:induction false} ReplaceMatchingIsolated(store: seq<Row>, user: int, id: int, u: EventUpdate, now: int, other: int)
    requires AnyField(u) && other != user
    ensures Select(ReplaceMatching(store, user, id, u, now), OwnedBy(other)) == Select(store, OwnedBy(other))
  {
    if store != [] {
      ReplaceMatchingIsolated(store[1..], user, id, u, now, other);
      var r := ReplaceMatching(store, user, id, u, now);
      assert r[1..] == ReplaceMatching(store[1..], user, id, u, now);
    }
  }

  lemma UpdateIsolated(store: seq<Row>, user: int, id: int, u: EventUpdate, now: int, other: int)
    requires other != user && UpdateEvent(store, user, id, u, now).Success?
    ensures AllEvents(UpdateEvent(store, user, id, u, now).value.store, other) == AllEvents(store, other)
  {
    if AnyField(u) {
      ReplaceMatchingIsolated(store, user, id, u, now, other);
    }
  }

  lemma {:induction false} RemoveMatchingIsolated(store: seq<Row>, user: int, id: int, other: int)
    requires other != user
    ensures Select(RemoveMatching(store, user, id), OwnedBy(other)) == Select(store, OwnedBy(other))
  {
    if store != [] {
      RemoveMatchingIsolated(store[1..], user, id, other);
    }
  }

  lemma DeleteIsolated(store: seq<Row>, user: int, id: int, other: int)
    requires other != user && DeleteEvent(store, user, id).Success?
    ensures AllEvents(DeleteEvent(store, user, id).value, other) == AllEvents(store, other)
  {
    RemoveMatchingIsolated(store, user, id, other);
  }
}
