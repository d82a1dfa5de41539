/**
 * The events hook: the lists the dashboard shows (all events, today's, the
 * upcoming ones), the loading flag and the error, and how each operation
 * changes them once its backend call has answered. A call's answer is a
 * parameter: `Success` with the data, or `Failure` with the error's message.
 */
module UseEvents {
  import opened Wrappers
  import opened ClientEvent

  datatype State = State(
    events: seq<Event>,
    todayEvents: seq<Event>,
    upcomingEvents: seq<Event>,
    isLoading: bool,
    error: Option<string>)

  /** The state the hook starts in: nothing loaded, no error. */
  const Initial := State([], [], [], false, None)

  /** `fetchAllEvents`: the list becomes the data; a failure keeps the list and records the message. */
  function FetchAll(s: State, answer: Result<seq<Event>, string>): (r: State)
    ensures !r.isLoading
    ensures answer.Success? ==> r.events == answer.value && r.error == None
    ensures answer.Failure? ==> r.events == s.events && r.error == Some(answer.error)
    ensures r.todayEvents == s.todayEvents && r.upcomingEvents == s.upcomingEvents
  {
    match answer
    case Success(data) => s.(events := data, isLoading := false, error := None)
    case Failure(message) => s.(isLoading := false, error := Some(message))
  }

  /** `fetchTodayEvents`: today's list becomes the data; a failure is only logged. */
  function FetchToday(s: State, answer: Result<seq<Event>, string>): (r: State)
    ensures answer.Success? ==> r == s.(todayEvents := answer.value)
    ensures answer.Failure? ==> r == s
  {
    match answer
    case Success(data) => s.(todayEvents := data)
    case Failure(_) => s
  }

  /** `fetchUpcomingEvents`: the upcoming list becomes the data; a failure is only logged. */
  function FetchUpcoming(s: State, answer: Result<seq<Event>, string>): (r: State)
    ensures answer.Success? ==> r == s.(upcomingEvents := answer.value)
    ensures answer.Failure? ==> r == s
  {
    match answer
    case Success(data) => s.(upcomingEvents := data)
    case Failure(_) => s
  }

  /** The new state and what the call returns to its caller. */
  datatype Answered<T> = Answered(state: State, returned: T)

  /**
   * `fetchEventsByMonth`: like `fetchAllEvents` for the month's events, and
   * it also returns them; a failure returns the empty list.
   */
  function FetchByMonth(s: State, answer: Result<seq<Event>, string>): (r: Answered<seq<Event>>)
    ensures r.state == FetchAll(s, answer)
    ensures answer.Success? ==> r.returned == answer.value
    ensures answer.Failure? ==> r.returned == []
  {
    match answer
    case Success(data) => Answered(s.(events := data, isLoading := false, error := None), data)
    case Failure(message) => Answered(s.(isLoading := false, error := Some(message)), [])
  }

  /** `fetchEventsByDate`: returns the day's events, or the empty list on failure; the state is untouched. */
  function FetchByDate(answer: Result<seq<Event>, string>): (r: seq<Event>)
    ensures answer.Success? ==> r == answer.value
    ensures answer.Failure? ==> r == []
  {
    match answer
    case Success(data) => data
    case Failure(_) => []
  }

  /**
   * After a successful change the hook reloads today's and the upcoming
   * lists; their answers are parameters too.
   */
  function Refresh(s: State, today: Result<seq<Event>, string>, upcoming: Result<seq<Event>, string>): (r: State)
    ensures r.events == s.events && r.isLoading == s.isLoading && r.error == s.error
    ensures r.todayEvents == (if today.Success? then today.value else s.todayEvents)
    ensures r.upcomingEvents == (if upcoming.Success? then upcoming.value else s.upcomingEvents)
  {
    FetchUpcoming(FetchToday(s, today), upcoming)
  }

  /**
   * `refreshEvents`: the three fetches run side by side; each touches its
   * own part of the state, so the outcome is taken in one fixed order.
   */
  function RefreshEvents(s: State, all: Result<seq<Event>, string>,
                         today: Result<seq<Event>, string>, upcoming: Result<seq<Event>, string>): (r: State)
    ensures r.events == FetchAll(s, all).events && r.error == FetchAll(s, all).error && !r.isLoading
    ensures r.todayEvents == FetchToday(s, today).todayEvents
    ensures r.upcomingEvents == FetchUpcoming(s, upcoming).upcomingEvents
  {
    FetchUpcoming(FetchToday(FetchAll(s, all), today), upcoming)
  }

  /** In whichever of the six orders the three fetches answer, the state after all three is the same. */
  lemma RefreshOrderFree(s: State, all: Result<seq<Event>, string>,
                         today: Result<seq<Event>, string>, upcoming: Result<seq<Event>, string>)
    ensures FetchAll(FetchToday(FetchUpcoming(s, upcoming), today), all) == RefreshEvents(s, all, today, upcoming)
    ensures FetchToday(FetchAll(FetchUpcoming(s, upcoming), all), today) == RefreshEvents(s, all, today, upcoming)
    ensures FetchUpcoming(FetchAll(FetchToday(s, today), all), upcoming) == RefreshEvents(s, all, today, upcoming)
    ensures FetchToday(FetchUpcoming(FetchAll(s, all), upcoming), today) == RefreshEvents(s, all, today, upcoming)
    ensures FetchAll(FetchUpcoming(FetchToday(s, today), upcoming), all) == RefreshEvents(s, all, today, upcoming)
  {
  }

  /** `prev.map(e => e.id === id ? updated : e)`. */
  function ReplaceById(events: seq<Event>, id: int, updated: Event): (r: seq<Event>)
    ensures |r| == |events|
    ensures forall i :: 0 <= i < |r| ==> r[i] == if events[i].id == id then updated else events[i]
  {
    seq(|events|, i requires 0 <= i < |events| => if events[i].id == id then updated else events[i])
  }

  /** `prev.filter(e => e.id !== id)`. */
  function RemoveById(events: seq<Event>, id: int): (r: seq<Event>)
    ensures |r| <= |events|
    ensures forall i :: 0 <= i < |r| ==> r[i].id != id
  {
    if events == [] then []
    else if events[0].id == id then RemoveById(events[1..], id)
    else [events[0]] + RemoveById(events[1..], id)
  }

  /**
   * `createEvent`: the event the server created is appended to the list and
   * returned; a failure leaves the state as it was and passes the error on.
   */
  function Create(s: State, answer: Result<Event, string>,
                  today: Result<seq<Event>, string>, upcoming: Result<seq<Event>, string>): (r: Answered<Result<Event, string>>)
    ensures r.returned == answer
    ensures answer.Failure? ==> r.state == s
    ensures answer.Success? ==> r.state.events == s.events + [answer.value]
    ensures answer.Success? ==> r.state.todayEvents == FetchToday(s, today).todayEvents
                                && r.state.upcomingEvents == FetchUpcoming(s, upcoming).upcomingEvents
                                && r.state.isLoading == s.isLoading && r.state.error == s.error
  {
    match answer
    case Success(created) => Answered(Refresh(s.(events := s.events + [created]), today, upcoming), answer)
    case Failure(_) => Answered(s, answer)
  }

  /**
   * `updateEvent`: every listed event with the id is replaced by the
   * server's version, which is returned; a failure changes nothing.
   */
  function Update(s: State, id: int, answer: Result<Event, string>,
                  today: Result<seq<Event>, string>, upcoming: Result<seq<Event>, string>): (r: Answered<Result<Event, string>>)
    ensures r.returned == answer
    ensures answer.Failure? ==> r.state == s
    ensures answer.Success? ==> r.state.events == ReplaceById(s.events, id, answer.value)
    ensures answer.Success? ==> r.state.todayEvents == FetchToday(s, today).todayEvents
                                && r.state.upcomingEvents == FetchUpcoming(s, upcoming).upcomingEvents
                                && r.state.isLoading == s.isLoading && r.state.error == s.error
  {
    match answer
    case Success(updated) => Answered(Refresh(s.(events := ReplaceById(s.events, id, updated)), today, upcoming), answer)
    case Failure(_) => Answered(s, answer)
  }

  /** `deleteEvent`: the events with the id leave the list; a failure changes nothing and is passed on. */
  function Delete(s: State, id: int, answer: Result<(), string>,
                  today: Result<seq<Event>, string>, upcoming: Result<seq<Event>, string>): (r: Answered<Result<(), string>>)
    ensures r.returned == answer
    ensures answer.Failure? ==> r.state == s
    ensures answer.Success? ==> r.state.events == RemoveById(s.events, id)
    ensures answer.Success? ==> r.state.todayEvents == FetchToday(s, today).todayEvents
                                && r.state.upcomingEvents == FetchUpcoming(s, upcoming).upcomingEvents
                                && r.state.isLoading == s.isLoading && r.state.error == s.error
  {
    match answer
    case Success(_) => Answered(Refresh(s.(events := RemoveById(s.events, id)), today, upcoming), answer)
    case Failure(_) => Answered(s, answer)
  }

  /** The ids of a list. */
  function Ids(events: seq<Event>): set<int> {
    set i | 0 <= i < |events| :: events[i].id
  }

  /** Removing by id keeps exactly the other events, in their order. */
  lemma {:induction false} RemoveByIdKeepsOthers(events: seq<Event>, id: int)
    ensures forall e :: e in RemoveById(events, id) <==> e in events && e.id != id
    ensures RemoveById(events, id) == events <==> id !in Ids(events)
  {
    if events != [] {
      RemoveByIdKeepsOthers(events[1..], id);
      assert events == [events[0]] + events[1..];
      assert Ids(events) == {events[0].id} + Ids(events[1..]) by {
        forall x | x in Ids(events) ensures x in {events[0].id} + Ids(events[1..]) {
          var i :| 0 <= i < |events| && events[i].id == x;
          if i > 0 {
            assert events[1..][i - 1].id == x;
          }
        }
        forall x | x in Ids(events[1..]) ensures x in Ids(events) {
          var i :| 0 <= i < |events[1..]| && events[1..][i].id == x;
          assert events[i + 1].id == x;
        }
      }
      if events[0].id == id {
        assert |RemoveById(events, id)| < |events|;
      }
    }
  }

  /** Removing by id keeps the order of what stays: it distributes over concatenation. */
  lemma {:induction false} RemoveByIdAppend(a: seq<Event>, b: seq<Event>, id: int)
    ensures RemoveById(a + b, id) == RemoveById(a, id) + RemoveById(b, id)
  {
    if a == [] {
      assert a + b == b;
    } else {
      assert (a + b)[1..] == a[1..] + b;
      RemoveByIdAppend(a[1..], b, id);
    }
  }

  /** Deleting twice is deleting once. */
  lemma RemoveByIdIdempotent(events: seq<Event>, id: int)
    ensures RemoveById(RemoveById(events, id), id) == RemoveById(events, id)
  {
    var r := RemoveById(events, id);
    assert id !in Ids(r);
    RemoveByIdKeepsOthers(r, id);
  }

  /** Replacing by id leaves no event with the id but the server's version, and the others in place. */
  lemma ReplaceByIdMembers(events: seq<Event>, id: int, updated: Event)
    ensures forall e :: e in ReplaceById(events, id, updated) && e.id == id ==> e == updated
    ensures forall e :: e in events && e.id != id ==> e in ReplaceById(events, id, updated)
    ensures updated in ReplaceById(events, id, updated) <==> id in Ids(events) || updated in events
  {
    var r := ReplaceById(events, id, updated);
    forall e | e in events && e.id != id
      ensures e in r
    {
      var i :| 0 <= i < |events| && events[i] == e;
      assert r[i] == e;
    }
    if id in Ids(events) {
      var i :| 0 <= i < |events| && events[i].id == id;
      assert r[i] == updated;
    }
    if updated in r {
      var i :| 0 <= i < |r| && r[i] == updated;
      if events[i].id != id {
        assert events[i] == updated;
      }
    }
  }

  /** Applying the same update twice is applying it once, when the server keeps the id. */
  lemma ReplaceByIdIdempotent(events: seq<Event>, id: int, updated: Event)
    requires updated.id == id
    ensures ReplaceById(ReplaceById(events, id, updated), id, updated) == ReplaceById(events, id, updated)
  {
  }

  /**
   * Creating an event with a new id and then deleting it gives back the
   * list from before.
   */
  lemma CreateThenDelete(s: State, created: Event, t1: Result<seq<Event>, string>, u1: Result<seq<Event>, string>,
                         t2: Result<seq<Event>, string>, u2: Result<seq<Event>, string>)
    requires created.id !in Ids(s.events)
    ensures var afterCreate := Create(s, Success(created), t1, u1).state;
      Delete(afterCreate, created.id, Success(()), t2, u2).state.events == s.events
  {
    RemoveByIdAppend(s.events, [created], created.id);
    RemoveByIdKeepsOthers(s.events, created.id);
    assert RemoveById([created], created.id) == [];
  }
}
