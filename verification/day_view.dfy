/**
 * The day view: one date, the arrows that move it a day at a time and
 * report the new date's key, and the blocks of events on the hour grid.
 * The events of the date are `ClientEvent.EventsOnDate`.
 */
module DayView {
  import opened Wrappers
  import opened CivilDate
  import opened DateKey
  import opened ClientEvent
  import opened Clock

  /** The date the view moved to, and the key it reported to `onDateClick`, if any. */
  datatype DayMove = DayMove(date: Date, reported: Option<string>)

  /**
   * `navigateDay`: `setDate(getDate() + direction)` on a copy of the current
   * date, then `onDateClick?.(formatDate(newDate))`.
   */
  function NavigateDay(current: Date, direction: int, hasHandler: bool): (r: DayMove)
    requires current.Valid()
    ensures r.date.Valid()
    ensures r.reported.Some? <==> hasHandler
    ensures r.reported.Some? ==> ParseDateKey(r.reported.value) == Some(r.date)
  {
    var newDate := ShiftDay(current, direction);
    DayMove(newDate, ReportDate(hasHandler, newDate))
  }

  /** The arrows move exactly `direction` days, and the key reported is the new date's. */
  lemma NavigateDayShifts(current: Date, direction: int, hasHandler: bool)
    requires current.Valid()
    ensures var r := NavigateDay(current, direction, hasHandler);
      && r.date == AddDays(current, direction)
      && DayNumber(r.date) == DayNumber(current) + direction
      && (hasHandler ==> r.reported == Some(FormatDate(r.date)))
  {
    ShiftDayIsAddDays(current, direction);
    ShiftDayNumber(current, direction);
  }

  /** Moving `a` days and then `b` days lands where moving `a + b` days does. */
  lemma NavigateDayCompose(current: Date, a: int, b: int, hasHandler: bool)
    requires current.Valid()
    ensures var first := NavigateDay(current, a, hasHandler).date;
      NavigateDay(first, b, hasHandler) == NavigateDay(current, a + b, hasHandler)
  {
    ShiftDayCompose(current, a, b, a + b);
  }

  /** A day forward and a day back (or the reverse) comes back to the same date. */
  lemma NavigateDayRoundTrip(current: Date, direction: int, hasHandler: bool)
    requires current.Valid()
    ensures NavigateDay(NavigateDay(current, direction, hasHandler).date, -direction, hasHandler).date == current
  {
    ShiftDayCompose(current, direction, -direction, 0);
    ShiftDayIsAddDays(current, 0);
  }

  /** The shortest block in the day view, in minutes. */
  const DayMinHeight := 40

  /** `getEventPosition` of the day view. */
  function DayEventPosition(e: Event): (r: Placement)
    ensures r.top == MinutesOf(e.startTime)
    ensures r.height.Some? <==> MinutesOf(e.startTime).Some? && MinutesOf(e.endTime).Some?
    ensures r.height.Some? ==> r.height.value >= DayMinHeight
  {
    EventPosition(e.startTime, e.endTime, DayMinHeight)
  }

  /** A block for backend times starts at the start minute and lasts the event, at least 40 minutes. */
  lemma DayEventPositionOfTimes(e: Event, h1: nat, m1: nat, s1: nat, h2: nat, m2: nat, s2: nat)
    requires h1 < 24 && m1 < 60 && s1 < 60 && h2 < 24 && m2 < 60 && s2 < 60
    requires e.startTime == TimeText(h1, m1, s1) && e.endTime == TimeText(h2, m2, s2)
    ensures DayEventPosition(e) == Place(Some(MinuteOfDay(h1, m1)), Some(MinuteOfDay(h2, m2)), DayMinHeight)
  {
    PositionOfTimes(h1, m1, s1, h2, m2, s2, DayMinHeight);
  }
}
