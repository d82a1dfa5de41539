/**
 * The month grid: which days it shows, in which cells, with which events,
 * what a drop onto a day does, and how the arrows move between months.
 * The component's current date is a parameter, and so is today's date.
 */
module MonthView {
  import opened Wrappers
  import opened Text
  import opened CivilDate
  import opened DateKey
  import opened ClientEvent

  /** What `getDaysInMonth` returns; `month` is JavaScript's 0-based month. */
  datatype MonthInfo = MonthInfo(daysInMonth: int, startingDay: int, year: int, month: int)

  /** A month the grid can show: a 0-based month in range, and no negative count of blanks. */
  predicate Shown(info: MonthInfo) {
    0 <= info.month < 12 && 0 <= info.startingDay
  }

  /**
   * `getDaysInMonth`: the length is the day of day 0 of the next month, and
   * the first column used is the weekday of day 1, both built with the
   * `Date` constructor. For a year from 0 to 99 the constructor reads the
   * year as 1900 plus it, so length and first column are those of that
   * month in the 1900s, while `year` stays the current one.
   */
  function GetDaysInMonth(current: Date): (r: MonthInfo)
    requires current.Valid()
    ensures r.year == current.year && r.month == current.month - 1
    ensures r.daysInMonth == DaysInMonth(FullYear(current.year), current.month)
    ensures r.startingDay == Weekday(Date(FullYear(current.year), current.month, 1))
    ensures !(0 <= current.year <= 99) ==> Describes(r, current.year, current.month)
    ensures Shown(r) && 0 <= r.startingDay < 7
  {
    ConstructDateInRange(current.year, current.month, 1);
    ConstructDateDayZero(current.year, current.month);
    var firstDay := ConstructDate(current.year, current.month - 1, 1);
    var lastDay := ConstructDate(current.year, current.month, 0);
    MonthInfo(lastDay.day, Weekday(firstDay), current.year, current.month - 1)
  }

  /**
   * In year 0, a leap year of the proleptic Gregorian calendar, the grid
   * of February has the 28 days of February 1900.
   */
  lemma YearZeroFebruaryAsIn1900(current: Date)
    requires current.Valid() && current.year == 0 && current.month == 2
    ensures GetDaysInMonth(current).daysInMonth == 28
    ensures DaysInMonth(current.year, current.month) == 29
  {
  }

  /** The calendar day shown in the cell numbered `day`. */
  function DayDate(info: MonthInfo, day: int): Date {
    Date(info.year, info.month + 1, day)
  }

  /** The key of a day cell, written as the template literal writes it. */
  function CellKey(info: MonthInfo, day: nat): string
    requires Shown(info)
  {
    IntText(info.year) + MonthDayText(info.month + 1, day)
  }

  /** A day cell's key is its date's key, reads back as that date, and is never empty. */
  lemma CellKeyOfDate(info: MonthInfo, day: nat)
    requires Shown(info) && DayDate(info, day).Valid()
    ensures CellKey(info, day) == FormatDate(DayDate(info, day))
    ensures ParseDateKey(CellKey(info, day)) == Some(DayDate(info, day))
    ensures CellKey(info, day) != ""
  {
    ParseFormatRoundTrip(DayDate(info, day));
  }

  /** Different days of the month have different keys. */
  lemma CellKeysDistinct(info: MonthInfo, d1: nat, d2: nat)
    requires Shown(info) && DayDate(info, d1).Valid() && DayDate(info, d2).Valid()
    ensures CellKey(info, d1) == CellKey(info, d2) <==> d1 == d2
  {
    CellKeyOfDate(info, d1);
    CellKeyOfDate(info, d2);
    FormatDateInjective(DayDate(info, d1), DayDate(info, d2));
  }

  /** `isToday`: day, month and year all equal today's. */
  function IsToday(today: Date, info: MonthInfo, day: int): (r: bool)
    ensures r <==> today == DayDate(info, day)
  {
    today.day == day && today.month - 1 == info.month && today.year == info.year
  }

  /** For real dates, being today is having today's key. */
  lemma IsTodayIffSameKey(today: Date, info: MonthInfo, day: nat)
    requires today.Valid() && Shown(info) && DayDate(info, day).Valid()
    ensures IsToday(today, info, day) <==> FormatDate(today) == CellKey(info, day)
  {
    CellKeyOfDate(info, day);
    FormatDateInjective(today, DayDate(info, day));
  }

  /**
   * `isSelected`: no selection (`null`, `undefined` or the empty string,
   * all falsy) selects nothing; otherwise the selection must be the key.
   */
  function IsSelected(selected: Option<string>, info: MonthInfo, day: nat): (r: bool)
    requires Shown(info)
    ensures r ==> selected == Some(CellKey(info, day))
  {
    match selected
    case None => false
    case Some(s) => if s == "" then false else s == CellKey(info, day)
  }

  /** A selection picks the cell with its key, and at most one day of the month. */
  lemma IsSelectedIffKey(selected: Option<string>, info: MonthInfo, d1: nat, d2: nat)
    requires Shown(info) && DayDate(info, d1).Valid() && DayDate(info, d2).Valid()
    ensures IsSelected(selected, info, d1) <==> selected == Some(CellKey(info, d1))
    ensures IsSelected(selected, info, d1) && IsSelected(selected, info, d2) ==> d1 == d2
  {
    CellKeyOfDate(info, d1);
    CellKeysDistinct(info, d1, d2);
  }

  /** How many events a day cell lists before the "+N more" note. */
  const MaxShown := 3

  /** One cell of the grid: a leading blank, or a day with its events. */
  datatype Cell =
    | Empty(index: nat)
    | Day(day: nat, key: string, isToday: bool, isSelected: bool,
          hasEvents: bool, shown: seq<Event>, more: Option<nat>)

  /**
   * The cell of day `day`: its events are the ones with its key; the first
   * three are listed and, past three, a "+N more" note counts the rest.
   */
  function DayCell(events: seq<Event>, today: Date, selected: Option<string>,
                   info: MonthInfo, day: nat): (c: Cell)
    requires Shown(info)
    ensures c.Day? && c.day == day
  {
    var key := CellKey(info, day);
    var dayEvents := EventsOn(events, key);
    Day(day, key, IsToday(today, info, day), IsSelected(selected, info, day), |dayEvents| > 0,
        Visible(dayEvents), Hidden(dayEvents))
  }

  /** The events a cell lists: the first three. */
  function Visible(dayEvents: seq<Event>): (r: seq<Event>)
    ensures |r| <= MaxShown
    ensures |r| <= |dayEvents| && r == dayEvents[..|r|]
    ensures |r| == MaxShown || r == dayEvents
  {
    if |dayEvents| > MaxShown then dayEvents[..MaxShown] else dayEvents
  }

  /** The count in the "+N more" note, present only past three events. */
  function Hidden(dayEvents: seq<Event>): (r: Option<nat>)
    ensures r.Some? <==> |dayEvents| > MaxShown
    ensures r.Some? ==> r.value > 0 && |Visible(dayEvents)| + r.value == |dayEvents|
  {
    if |dayEvents| > MaxShown then Some(|dayEvents| - MaxShown) else None
  }

  /**
   * What a day cell shows: it has events exactly when some event carries
   * its key; it lists the first of them, in input order, and the note
   * counts every other one, so nothing on that day goes unaccounted for.
   */
  lemma DayCellShows(events: seq<Event>, today: Date, selected: Option<string>,
                     info: MonthInfo, day: nat)
    requires Shown(info)
    ensures var c := DayCell(events, today, selected, info, day);
      var dayEvents := EventsOn(events, c.key);
      && c.key == CellKey(info, day)
      && (c.hasEvents <==> exists e :: e in events && e.eventDate == c.key)
      && (forall e :: e in c.shown ==> e in events && e.eventDate == c.key)
      && c.shown + dayEvents[|c.shown|..] == dayEvents
      && |dayEvents| == |c.shown| + (if c.more.Some? then c.more.value else 0)
  {
    var c := DayCell(events, today, selected, info, day);
    DayEventsShown(events, c.key);
  }

  lemma DayEventsShown(events: seq<Event>, key: string)
    ensures var dayEvents := EventsOn(events, key);
      && (|dayEvents| > 0 <==> exists e :: e in events && e.eventDate == key)
      && (forall e :: e in Visible(dayEvents) ==> e in events && e.eventDate == key)
      && Visible(dayEvents) + dayEvents[|Visible(dayEvents)|..] == dayEvents
      && |dayEvents| == |Visible(dayEvents)| + (if Hidden(dayEvents).Some? then Hidden(dayEvents).value else 0)
  {
    var dayEvents := EventsOn(events, key);
    EventsOnMembers(events, key);
    if |dayEvents| > 0 {
      assert dayEvents[0] in dayEvents;
    }
    VisibleSplit(dayEvents);
  }

  /** The listed events and the rest make up the day's events. */
  lemma VisibleSplit(dayEvents: seq<Event>)
    ensures Visible(dayEvents) + dayEvents[|Visible(dayEvents)|..] == dayEvents
    ensures forall e :: e in Visible(dayEvents) ==> e in dayEvents
  {
    var v := Visible(dayEvents);
    assert dayEvents == dayEvents[..|v|] + dayEvents[|v|..];
  }

  /** The text of the note: "+N more". */
  function MoreLabel(c: Cell): (r: Option<string>)
    requires c.Day?
    ensures r.Some? <==> c.more.Some?
  {
    match c.more
    case None => None
    case Some(n) => Some("+" + NatText(n) + " more")
  }

  /** The cell at position `i` of the grid: blanks first, then day `i - startingDay + 1`. */
  function GridCell(events: seq<Event>, today: Date, selected: Option<string>,
                    info: MonthInfo, i: nat): Cell
    requires Shown(info)
  {
    if i < info.startingDay then Empty(i)
    else DayCell(events, today, selected, info, i - info.startingDay + 1)
  }

  /**
   * `renderDays`: `startingDay` blank cells, then one cell per day of the
   * month, in order.
   */
  method RenderDays(events: seq<Event>, today: Date, selected: Option<string>, info: MonthInfo)
    returns (cells: seq<Cell>)
    requires Shown(info)
    ensures |cells| == info.startingDay + (if info.daysInMonth > 0 then info.daysInMonth else 0)
    ensures forall i :: 0 <= i < |cells| ==> cells[i] == GridCell(events, today, selected, info, i)
  {
    cells := LayOutDays(info, (day: nat) => DayCell(events, today, selected, info, day));
  }

  /**
   * The two loops of `renderDays`, with the making of a day's cell passed in:
   * a blank per leading column, then days 1 to `daysInMonth`.
   */
  method LayOutDays(info: MonthInfo, dayCell: nat -> Cell) returns (cells: seq<Cell>)
    requires info.startingDay >= 0
    ensures |cells| == info.startingDay + (if info.daysInMonth > 0 then info.daysInMonth else 0)
    ensures forall i :: 0 <= i < |cells| ==>
      cells[i] == if i < info.startingDay then Empty(i) else dayCell(i - info.startingDay + 1)
  {
    cells := [];
    var i := 0;
    while i < info.startingDay
      invariant 0 <= i <= info.startingDay && |cells| == i
      invariant forall j :: 0 <= j < |cells| ==> cells[j] == Empty(j)
    {
      cells := cells + [Empty(i)];
      i := i + 1;
    }
    var day := 1;
    while day <= info.daysInMonth
      invariant 1 <= day && (day <= info.daysInMonth + 1 || day == 1)
      invariant |cells| == info.startingDay + day - 1
      invariant forall j :: 0 <= j < |cells| ==>
        cells[j] == if j < info.startingDay then Empty(j) else dayCell(j - info.startingDay + 1)
    {
      cells := cells + [dayCell(day)];
      day := day + 1;
    }
  }

  /** `info` is what `getDaysInMonth` gives for month `m` of year `y`. */
  predicate Describes(info: MonthInfo, y: int, m: int) {
    && 1 <= m <= 12
    && info.year == y && info.month == m - 1
    && info.daysInMonth == DaysInMonth(y, m)
    && info.startingDay == Weekday(Date(y, m, 1))
  }

  /**
   * The grid of a real month: the blanks are the columns before day 1's
   * weekday, and position `i` past them holds a real day of the month,
   * in the column of its weekday.
   */
  lemma GridLayout(info: MonthInfo, y: int, m: int, i: nat)
    requires Describes(info, y, m) && i < info.startingDay + info.daysInMonth
    ensures Shown(info)
    ensures i < info.startingDay <==> i < Weekday(Date(y, m, 1))
    ensures i >= info.startingDay ==>
      var day := i - info.startingDay + 1;
      Date(y, m, day).Valid() && i % 7 == Weekday(Date(y, m, day))
  {
    if i >= info.startingDay {
      DayCellColumn(info, y, m, i - info.startingDay + 1);
    }
  }

  /** In the grid of a real month, every day's cell falls in its weekday's column. */
  lemma DayCellColumn(info: MonthInfo, y: int, m: int, day: int)
    requires Describes(info, y, m) && 1 <= day <= info.daysInMonth
    ensures (info.startingDay + day - 1) % 7 == Weekday(Date(y, m, day))
  {
    DayNumberFromFirst(Date(y, m, day));
    ModSevenAdd(DayNumber(Date(y, m, 1)) + 1, day - 1);
  }

  /** A pending move: `onEventDrop(id, newDate)`. */
  datatype Move = Move(id: int, newDate: string)

  /** What a drop does: at most one move, and the dragged event is forgotten. */
  datatype DropResult = DropResult(move: Option<Move>, dragged: Option<Event>)

  /**
   * `handleDrop`: with an event being dragged and a handler to tell, a drop
   * on another day reports one move to that day's key; the drag ends either way.
   */
  function HandleDrop(dragged: Option<Event>, hasHandler: bool, info: MonthInfo, day: nat): (r: DropResult)
    requires Shown(info)
    ensures r.dragged.None?
    ensures r.move.Some? <==> dragged.Some? && hasHandler && dragged.value.eventDate != CellKey(info, day)
    ensures r.move.Some? ==> r.move.value == Move(dragged.value.id, CellKey(info, day))
  {
    var move :=
      if dragged.Some? && hasHandler then
        var newDate := CellKey(info, day);
        if newDate != dragged.value.eventDate then Some(Move(dragged.value.id, newDate)) else None
      else None;
    DropResult(move, None)
  }

  /**
   * For an event keyed by a real date, a drop moves it exactly when the
   * target day is another date, and the new key reads back as the target.
   */
  lemma DropMovesToOtherDay(e: Event, d: Date, info: MonthInfo, day: nat)
    requires d.Valid() && e.eventDate == FormatDate(d)
    requires Shown(info) && DayDate(info, day).Valid()
    ensures var r := HandleDrop(Some(e), true, info, day);
      && (r.move.Some? <==> d != DayDate(info, day))
      && (r.move.Some? ==> ParseDateKey(r.move.value.newDate) == Some(DayDate(info, day)))
  {
    CellKeyOfDate(info, day);
    FormatDateInjective(d, DayDate(info, day));
  }

  /**
   * `navigateMonth` as written: `setMonth(getMonth() + direction)` keeps the
   * day of the month and lets it run past the end of a shorter target month.
   */
  function NavigateMonthAsWritten(current: Date, direction: int): (r: Date)
    requires current.Valid()
    ensures r.Valid()
  {
    MakeDate(current.year, current.month - 1 + direction, current.day)
  }

  /** As written, the arrow reaches the target month when the day exists there. */
  lemma NavigateMonthAsWrittenKeepsDay(current: Date, direction: int)
    requires current.Valid()
    requires var t := FirstOfMonth(MonthIndex(current.year, current.month) + direction);
      current.day <= DaysInMonth(t.year, t.month)
    ensures var t := FirstOfMonth(MonthIndex(current.year, current.month) + direction);
      NavigateMonthAsWritten(current, direction) == Date(t.year, t.month, current.day)
  {
    var index := MonthIndex(current.year, current.month) + direction;
    var r := NavigateMonthAsWritten(current, direction);
    LandedDayNumber(current, direction, r);
    DayInMonthFromFirst(FirstOfMonth(index), r, current.day);
  }

  /**
   * As written, when the day does not exist in the target month the arrow
   * overshoots into the month after, by the days the target month lacks.
   */
  lemma NavigateMonthAsWrittenOvershoots(current: Date, direction: int)
    requires current.Valid()
    requires var t := FirstOfMonth(MonthIndex(current.year, current.month) + direction);
      current.day > DaysInMonth(t.year, t.month)
    ensures var t := FirstOfMonth(MonthIndex(current.year, current.month) + direction);
      var n := FirstOfMonth(MonthIndex(current.year, current.month) + direction + 1);
      NavigateMonthAsWritten(current, direction) == Date(n.year, n.month, current.day - DaysInMonth(t.year, t.month))
  {
    var index := MonthIndex(current.year, current.month) + direction;
    var r := NavigateMonthAsWritten(current, direction);
    LandedDayNumber(current, direction, r);
    LandsInNextMonth(index, current.day, r);
  }

  /** The arrow's date is `day - 1` days after the first of the target month. */
  lemma LandedDayNumber(current: Date, direction: int, r: Date)
    requires current.Valid() && r == NavigateMonthAsWritten(current, direction)
    ensures DayNumber(r) == DayNumber(FirstOfMonth(MonthIndex(current.year, current.month) + direction)) + current.day - 1
  {
    MakeDateDayNumber(current.year, current.month - 1 + direction, current.day);
    assert current.year * 12 + (current.month - 1 + direction) == MonthIndex(current.year, current.month) + direction;
  }

  /** A date more days after the first of a month than the month has lies in the next month. */
  lemma LandsInNextMonth(index: int, day: int, r: Date)
    requires day <= 31 && r.Valid()
    requires var t := FirstOfMonth(index); day > DaysInMonth(t.year, t.month)
    requires DayNumber(r) == DayNumber(FirstOfMonth(index)) + day - 1
    ensures var t := FirstOfMonth(index);
      var n := FirstOfMonth(index + 1);
      r == Date(n.year, n.month, day - DaysInMonth(t.year, t.month))
  {
    var t := FirstOfMonth(index);
    NextFirstOfMonth(index);
    DayInMonthFromFirst(FirstOfMonth(index + 1), r, day - DaysInMonth(t.year, t.month));
  }

  /**
   * From 31 January of a common year (2025, say) the "next month" arrow
   * shows March: it lands on 3 March, and February is never shown.
   */
  lemma JanuaryThirtyFirstSkipsFebruary(current: Date)
    requires current.Valid() && current.month == 1 && current.day == 31 && !IsLeapYear(current.year)
    ensures NavigateMonthAsWritten(current, 1) == Date(current.year, 3, 3)
    ensures MonthIndex(current.year, 3) == MonthIndex(current.year, current.month) + 2
  {
    assert FirstOfMonth(MonthIndex(current.year, current.month) + 1) == Date(current.year, 2, 1);
    assert FirstOfMonth(MonthIndex(current.year, current.month) + 1 + 1) == Date(current.year, 3, 1);
    NavigateMonthAsWrittenOvershoots(current, 1);
  }

  /** As written, a day up to the 28th comes back after one month forward and one back. */
  lemma NavigateMonthAsWrittenRoundTrip(current: Date, direction: int)
    requires current.Valid() && current.day <= 28
    ensures NavigateMonthAsWritten(NavigateMonthAsWritten(current, direction), -direction) == current
  {
    NavigateMonthAsWrittenKeepsDay(current, direction);
    NavigateMonthAsWrittenBack(current, NavigateMonthAsWritten(current, direction), direction);
  }

  /** Going back from a date with the same day, `direction` months on, returns to `current`. */
  lemma NavigateMonthAsWrittenBack(current: Date, r: Date, direction: int)
    requires current.Valid() && r.Valid() && r.day == current.day && current.day <= 28
    requires MonthIndex(r.year, r.month) == MonthIndex(current.year, current.month) + direction
    ensures NavigateMonthAsWritten(r, -direction) == current
  {
    BackToOwnMonth(current, r, direction);
    NavigateMonthAsWrittenKeepsDay(r, -direction);
  }

  /** A date `direction` months on from `current` leads back to `current`'s month. */
  lemma BackToOwnMonth(current: Date, r: Date, direction: int)
    requires current.Valid() && r.Valid()
    requires MonthIndex(r.year, r.month) == MonthIndex(current.year, current.month) + direction
    ensures FirstOfMonth(MonthIndex(r.year, r.month) + -direction) == Date(current.year, current.month, 1)
  {
    FirstOfOwnMonth(current.year, current.month);
  }

  /**
   * The month arrows as evidently intended: the target month is always
   * exactly `direction` months away, and the day is kept when it exists
   * there and otherwise clamped to the month's last day.
   */
  function NavigateMonth(current: Date, direction: int): (r: Date)
    requires current.Valid()
    ensures r.Valid()
    ensures MonthIndex(r.year, r.month) == MonthIndex(current.year, current.month) + direction
    ensures r.day <= current.day
    ensures r.day == current.day || r.day == DaysInMonth(r.year, r.month)
  {
    var t := FirstOfMonth(MonthIndex(current.year, current.month) + direction);
    var dim := DaysInMonth(t.year, t.month);
    Date(t.year, t.month, if current.day <= dim then current.day else dim)
  }

  /** Where the day exists in the target month, the intended arrows agree with the code. */
  lemma NavigateMonthAgrees(current: Date, direction: int)
    requires current.Valid()
    requires current.day <= DaysInMonth(NavigateMonth(current, direction).year,
                                        NavigateMonth(current, direction).month)
    ensures NavigateMonth(current, direction) == NavigateMonthAsWritten(current, direction)
  {
    NavigateMonthAsWrittenKeepsDay(current, direction);
  }

  /** With the intended arrows, a day up to the 28th comes back after a round trip. */
  lemma NavigateMonthRoundTrip(current: Date, direction: int)
    requires current.Valid() && current.day <= 28
    ensures NavigateMonth(NavigateMonth(current, direction), -direction) == current
  {
    var r := NavigateMonth(NavigateMonth(current, direction), -direction);
    FirstOfOwnMonth(current.year, current.month);
    assert FirstOfMonth(MonthIndex(r.year, r.month)) == FirstOfMonth(MonthIndex(current.year, current.month));
  }
}
