/**
 * The week view: the seven days from the Sunday on or before the current
 * date, the arrows that move a week at a time, the blocks of events on the
 * hour grid, and the month-and-year title. The events of each day are
 * `ClientEvent.EventsOnDate`.
 */
module WeekView {
  import opened Wrappers
  import opened Text
  import opened CivilDate
  import opened DateKey
  import opened ClientEvent
  import opened Clock

  /**
   * `current.setDate(current.getDate() - current.getDay())`: the day number
   * may drop below 1, and the date object carries it into the month before.
   */
  function WeekStart(date: Date): (r: Date)
    requires date.Valid()
    ensures r.Valid()
  {
    ShiftDay(date, -Weekday(date))
  }

  /**
   * `getWeekDates`: copies of the week's start, each moved with
   * `setDate(weekStart.getDate() + i)`, for `i` from 0 to 6.
   */
  function WeekDates(date: Date): (r: seq<Date>)
    requires date.Valid()
    ensures |r| == 7
    ensures forall i :: 0 <= i < 7 ==> r[i].Valid()
  {
    var start := WeekStart(date);
    seq(7, i => ShiftDay(start, i))
  }

  /** The week starts on the Sunday on or before the date, `Weekday(date)` days earlier. */
  lemma WeekStartIsSunday(date: Date)
    requires date.Valid()
    ensures DayNumber(WeekStart(date)) == DayNumber(date) - Weekday(date)
    ensures Weekday(WeekStart(date)) == 0
  {
    ShiftDayNumber(date, -Weekday(date));
    WeekdayFromSunday(WeekStart(date), date, 0);
  }

  /** Day `i` of the week is `i` days after its Sunday, and falls on weekday `i`. */
  lemma WeekDateAt(date: Date, i: int)
    requires date.Valid() && 0 <= i < 7
    ensures DayNumber(WeekDates(date)[i]) == DayNumber(date) - Weekday(date) + i
    ensures Weekday(WeekDates(date)[i]) == i
  {
    var start := WeekStart(date);
    WeekStartIsSunday(date);
    ShiftDayNumber(start, i);
    WeekdayFromSunday(WeekDates(date)[i], date, i);
  }

  /**
   * The seven dates are consecutive days from a Sunday to a Saturday, and
   * the date the week was built from is among them, at its weekday.
   */
  lemma WeekDatesConsecutive(date: Date)
    requires date.Valid()
    ensures forall i :: 0 <= i < 6 ==> WeekDates(date)[i + 1] == Next(WeekDates(date)[i])
    ensures forall i :: 0 <= i < 7 ==> Weekday(WeekDates(date)[i]) == i
    ensures WeekDates(date)[Weekday(date)] == date
  {
    var week := WeekDates(date);
    forall i | 0 <= i < 6
      ensures week[i + 1] == Next(week[i])
    {
      WeekDateAt(date, i);
      WeekDateAt(date, i + 1);
      NextDayNumber(week[i]);
      DayNumberInjective(week[i + 1], Next(week[i]));
    }
    forall i | 0 <= i < 7
      ensures Weekday(week[i]) == i
    {
      WeekDateAt(date, i);
    }
    WeekDateAt(date, Weekday(date));
    DayNumberInjective(week[Weekday(date)], date);
  }

  /** Every date of the week is built from the same Sunday: dates of one week have one week. */
  lemma WeekOfWeekDate(date: Date, i: int)
    requires date.Valid() && 0 <= i < 7
    ensures WeekDates(WeekDates(date)[i]) == WeekDates(date)
  {
    var d := WeekDates(date)[i];
    WeekDateAt(date, i);
    WeekStartIsSunday(d);
    WeekStartIsSunday(date);
    DayNumberInjective(WeekStart(d), WeekStart(date));
  }

  /** `navigateWeek`: `setDate(getDate() + direction * 7)`. */
  function NavigateWeek(current: Date, direction: int): (r: Date)
    requires current.Valid()
    ensures r.Valid()
  {
    ShiftDay(current, direction * 7)
  }

  /** The arrows move exactly `7 * direction` days and keep the weekday. */
  lemma NavigateWeekShifts(current: Date, direction: int)
    requires current.Valid()
    ensures NavigateWeek(current, direction) == AddDays(current, direction * 7)
    ensures DayNumber(NavigateWeek(current, direction)) == DayNumber(current) + direction * 7
    ensures Weekday(NavigateWeek(current, direction)) == Weekday(current)
  {
    ShiftDayIsAddDays(current, direction * 7);
    ShiftDayNumber(current, direction * 7);
    WeekdayWeeksApart(NavigateWeek(current, direction), current, direction);
  }

  /** Moving `a` weeks then `b` weeks is moving `a + b` weeks. */
  lemma NavigateWeekCompose(current: Date, a: int, b: int)
    requires current.Valid()
    ensures NavigateWeek(NavigateWeek(current, a), b) == NavigateWeek(current, a + b)
  {
    ShiftDayCompose(current, a * 7, b * 7, (a + b) * 7);
  }

  /** A week forward and a week back (or the reverse) is no move. */
  lemma NavigateWeekRoundTrip(current: Date, direction: int)
    requires current.Valid()
    ensures NavigateWeek(NavigateWeek(current, direction), -direction) == current
  {
    ShiftDayCompose(current, direction * 7, -direction * 7, 0);
    ShiftDayIsAddDays(current, 0);
  }

  /** The next week's dates are this week's, each seven days on. */
  lemma NavigateWeekMovesWeek(current: Date, direction: int, i: int)
    requires current.Valid() && 0 <= i < 7
    ensures DayNumber(WeekDates(NavigateWeek(current, direction))[i]) == DayNumber(WeekDates(current)[i]) + 7 * direction
  {
    var next := NavigateWeek(current, direction);
    NavigateWeekShifts(current, direction);
    WeekDateAt(current, i);
    WeekDateAt(next, i);
  }

  /** The shortest block in the week view, in minutes. */
  const WeekMinHeight := 30

  /** `getEventPosition` of the week view. */
  function WeekEventPosition(e: Event): (r: Placement)
    ensures r.top == MinutesOf(e.startTime)
    ensures r.height.Some? <==> MinutesOf(e.startTime).Some? && MinutesOf(e.endTime).Some?
    ensures r.height.Some? ==> r.height.value >= WeekMinHeight
  {
    EventPosition(e.startTime, e.endTime, WeekMinHeight)
  }

  /** A block for backend times starts at the start minute and lasts the event, at least 30 minutes. */
  lemma WeekEventPositionOfTimes(e: Event, h1: nat, m1: nat, s1: nat, h2: nat, m2: nat, s2: nat)
    requires h1 < 24 && m1 < 60 && s1 < 60 && h2 < 24 && m2 < 60 && s2 < 60
    requires e.startTime == TimeText(h1, m1, s1) && e.endTime == TimeText(h2, m2, s2)
    ensures WeekEventPosition(e) == Place(Some(MinuteOfDay(h1, m1)), Some(MinuteOfDay(h2, m2)), WeekMinHeight)
  {
    PositionOfTimes(h1, m1, s1, h2, m2, s2, WeekMinHeight);
  }

  /** The three-letter names `getMonthRange` uses, for 1-based months. */
  function MonthAbbrev(m: int): (r: string)
    requires 1 <= m <= 12
    ensures |r| == 3
  {
    ["Jan", "Feb", "Mar", "Apr", "May", "Jun", "Jul", "Aug", "Sep", "Oct", "Nov", "Dec"][m - 1]
  }

  /** Different months have different names. */
  lemma MonthAbbrevInjective(a: int, b: int)
    requires 1 <= a <= 12 && 1 <= b <= 12 && MonthAbbrev(a) == MonthAbbrev(b)
    ensures a == b
  {
  }

  /**
   * `getMonthRange`: only the months of the first and last day are compared,
   * and when they differ the year shown is the last day's.
   */
  function MonthRange(first: Date, last: Date): string
    requires first.Valid() && last.Valid()
  {
    if first.month == last.month then MonthAbbrev(first.month) + " " + IntText(first.year)
    else MonthAbbrev(first.month) + " - " + MonthAbbrev(last.month) + " " + IntText(last.year)
  }

  /** The title of the week of `date`. */
  function WeekTitle(date: Date): string
    requires date.Valid()
  {
    MonthRange(WeekDates(date)[0], WeekDates(date)[6])
  }

  /**
   * A week that fits in its Sunday's month: its days are that month's days
   * from the Sunday on, and the title names that month and its year.
   */
  lemma WeekTitleWithinMonth(date: Date)
    requires date.Valid()
    ensures var s := WeekStart(date);
      s.day + 6 <= DaysInMonth(s.year, s.month) ==>
        && (forall i :: 0 <= i < 7 ==> WeekDates(date)[i] == Date(s.year, s.month, s.day + i))
        && WeekTitle(date) == MonthAbbrev(s.month) + " " + IntText(s.year)
  {
    var s := WeekStart(date);
    if s.day + 6 <= DaysInMonth(s.year, s.month) {
      forall i | 0 <= i < 7
        ensures WeekDates(date)[i] == Date(s.year, s.month, s.day + i)
      {
        ShiftDayNumber(s, i);
        ShiftWithinMonth(s, WeekDates(date)[i], i);
      }
    }
  }

  /**
   * A week that runs into the next month: it ends in that month, and the
   * title names both months and the year of the second, so a week from
   * December into January shows the new year.
   */
  lemma WeekTitleAcrossMonths(date: Date)
    requires date.Valid()
    requires var s := WeekStart(date); s.day + 6 > DaysInMonth(s.year, s.month)
    ensures var s := WeekStart(date);
      var n := FirstOfMonth(MonthIndex(s.year, s.month) + 1);
      && WeekDates(date)[6] == Date(n.year, n.month, s.day + 6 - DaysInMonth(s.year, s.month))
      && WeekTitle(date) == MonthAbbrev(s.month) + " - " + MonthAbbrev(n.month) + " " + IntText(n.year)
  {
    var s := WeekStart(date);
    var n := FirstOfMonth(MonthIndex(s.year, s.month) + 1);
    ShiftDayNumber(s, 0);
    ShiftDayNumber(s, 6);
    ShiftWithinMonth(s, WeekDates(date)[0], 0);
    ShiftIntoNextMonth(s, WeekDates(date)[6], 6);
    FirstOfOwnMonth(s.year, s.month);
    assert n.month != s.month;
  }
}
