/**
 * An event as the frontend holds it: the JSON object the backend sends,
 * with the date and the times still as text. The views join events to
 * their cells by comparing `event_date` with a cell's date key.
 */
module ClientEvent {
  import opened Wrappers
  import opened CivilDate
  import opened DateKey

  datatype Event = Event(
    id: int,
    title: string,
    description: Option<string>,
    eventDate: string,
    startTime: string,
    endTime: string,
    notifyBefore: int)

  /**
   * `events.filter(event => event.event_date === key)`: the events on one
   * day, in the order they were given.
   */
  function EventsOn(events: seq<Event>, key: string): (r: seq<Event>)
    ensures |r| <= |events|
    ensures forall i :: 0 <= i < |r| ==> r[i].eventDate == key
  {
    if events == [] then []
    else
      var rest := EventsOn(events[1..], key);
      if events[0].eventDate == key then [events[0]] + rest else rest
  }

  /** The events on a day are exactly the given events with that key. */
  lemma {:induction false} EventsOnMembers(events: seq<Event>, key: string)
    ensures forall e :: e in EventsOn(events, key) <==> e in events && e.eventDate == key
  {
    if events != [] {
      EventsOnMembers(events[1..], key);
      assert events == [events[0]] + events[1..];
    }
  }

  /** Each event with the day's key is on the day as many times as it was given, and no other is. */
  lemma {:induction false} EventsOnCounts(events: seq<Event>, key: string)
    ensures forall e :: multiset(EventsOn(events, key))[e]
                        == if e.eventDate == key then multiset(events)[e] else 0
  {
    if events != [] {
      EventsOnCounts(events[1..], key);
      assert events == [events[0]] + events[1..];
    }
  }

  /** Filtering a concatenation filters each part: the input order is kept. */
  lemma {:induction false} EventsOnAppend(a: seq<Event>, b: seq<Event>, key: string)
    ensures EventsOn(a + b, key) == EventsOn(a, key) + EventsOn(b, key)
  {
    if a == [] {
      assert a + b == b;
    } else {
      assert (a + b)[1..] == a[1..] + b;
      EventsOnAppend(a[1..], b, key);
    }
  }

  /** A day whose key matches every event keeps the whole list. */
  lemma {:induction false} EventsOnAllMatch(events: seq<Event>, key: string)
    requires forall i :: 0 <= i < |events| ==> events[i].eventDate == key
    ensures EventsOn(events, key) == events
  {
    if events != [] {
      EventsOnAllMatch(events[1..], key);
      assert events == [events[0]] + events[1..];
    }
  }

  /**
   * `getEventsForDate` of the week view and `getEventsForDay` of the day
   * view: the events whose date is the day's key, in input order.
   */
  function EventsOnDate(events: seq<Event>, date: Date): (r: seq<Event>)
    requires date.Valid()
    ensures forall i :: 0 <= i < |r| ==> r[i].eventDate == FormatDate(date)
  {
    EventsOn(events, FormatDate(date))
  }

  /** An event keyed by a real date is listed for a day exactly when that day is its date. */
  lemma EventsOnDateExactly(events: seq<Event>, date: Date, e: Event, d: Date)
    requires date.Valid() && d.Valid() && e.eventDate == FormatDate(d)
    ensures e in EventsOnDate(events, date) <==> e in events && d == date
  {
    EventsOnMembers(events, FormatDate(date));
    FormatDateInjective(d, date);
  }
}
