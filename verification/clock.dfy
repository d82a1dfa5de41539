/**
 * Times of day as the calendar handles them: "HH:MM" text from the time
 * inputs of the event form, "HH:MM:SS" text from the backend, the 12-hour
 * labels of the hour rows, and the projection of an event's start and end
 * onto the vertical axis of the day and week views.
 */
module Clock {
  import opened Wrappers
  import opened Text

  /** "HH:MM", both parts zero-padded. */
  function ClockText(h: nat, m: nat): string {
    Pad2(h) + ":" + Pad2(m)
  }

  /** "HH:MM:SS", as the backend serialises a time of day. */
  function TimeText(h: nat, m: nat, s: nat): string {
    ClockText(h, m) + ":" + Pad2(s)
  }

  /** A real time of day. */
  predicate ValidClock(h: int, m: int) {
    0 <= h < 24 && 0 <= m < 60
  }

  /** Minutes since midnight. */
  function MinuteOfDay(h: int, m: int): int {
    h * 60 + m
  }

  /**
   * `const [hours, minutes] = t.split(':').map(Number); hours * 60 + minutes`.
   * `None` stands for NaN: a missing piece is `Number(undefined)`, and a piece
   * that is not a number is NaN too. Any piece after the second is ignored.
   */
  function MinutesOf(t: string): (r: Option<int>)
    ensures r.Some? ==> Field(t, ':', 0).Some? && Field(t, ':', 1).Some?
  {
    match (Field(t, ':', 0), Field(t, ':', 1))
    case (Some(hs), Some(ms)) =>
      (match (JsNumber(hs), JsNumber(ms))
       case (Some(h), Some(m)) => Some(MinuteOfDay(h, m))
       case _ => None)
    case _ => None
  }

  lemma Pad2NoColon(n: nat)
    requires n < 100
    ensures forall i :: 0 <= i < |Pad2(n)| ==> Pad2(n)[i] != ':'
    ensures JsNumber(Pad2(n)) == Some(n)
  {
    Pad2RoundTrip(n);
  }

  /** Two numerals as the first two ':'-pieces read as hours and minutes. */
  lemma MinutesOfPieces(t: string, hs: string, ms: string, h: nat, m: nat)
    requires Field(t, ':', 0) == Some(hs) && Field(t, ':', 1) == Some(ms)
    requires JsNumber(hs) == Some(h) && JsNumber(ms) == Some(m)
    ensures MinutesOf(t) == Some(MinuteOfDay(h, m))
  {
  }

  /** Reading "HH:MM" back gives its minute of the day. */
  lemma MinutesOfClockText(h: nat, m: nat)
    requires h < 100 && m < 100
    ensures MinutesOf(ClockText(h, m)) == Some(MinuteOfDay(h, m))
  {
    Pad2NoColon(h);
    Pad2NoColon(m);
    FieldsOfPair(Pad2(h), ':', Pad2(m));
    MinutesOfPieces(ClockText(h, m), Pad2(h), Pad2(m), h, m);
  }

  /** Reading "HH:MM:SS" gives the same minute of the day: seconds are dropped. */
  lemma MinutesOfTimeText(h: nat, m: nat, s: nat)
    requires h < 100 && m < 100 && s < 100
    ensures MinutesOf(TimeText(h, m, s)) == Some(MinuteOfDay(h, m))
  {
    Pad2NoColon(h);
    Pad2NoColon(m);
    FieldsOfTriple(Pad2(h), ':', Pad2(m), Pad2(s));
    MinutesOfPieces(TimeText(h, m, s), Pad2(h), Pad2(m), h, m);
  }

  /**
   * Where an event block sits in a timed view, in minutes (one pixel per
   * minute); a value that comes out NaN, giving "NaNpx", is `None`.
   */
  datatype Placement = Placement(top: Option<int>, height: Option<int>)

  /**
   * `getEventPosition`: the block starts at the start's minute of the day
   * and is as tall as the event lasts, but never shorter than `minHeight`.
   * With hour rows 60 pixels high, `(minutes / 60) * 60` pixels is `minutes`.
   * The top depends on the start alone; the height is NaN as soon as either
   * time is, since `Math.max` of NaN is NaN.
   */
  function EventPosition(start: string, end: string, minHeight: int): (r: Placement)
    ensures r.top == MinutesOf(start)
    ensures r.height.Some? <==> MinutesOf(start).Some? && MinutesOf(end).Some?
    ensures r.height.Some? ==> r.height.value >= minHeight
    ensures r.height.Some? ==> r.height.value >= MinutesOf(end).value - MinutesOf(start).value
    ensures r.height.Some? ==> r.height.value == minHeight
                               || r.height.value == MinutesOf(end).value - MinutesOf(start).value
  {
    Place(MinutesOf(start), MinutesOf(end), minHeight)
  }

  /** The block for a start and an end already read as minutes of the day. */
  function Place(top: Option<int>, bottom: Option<int>, minHeight: int): (r: Placement)
    ensures r.top == top
    ensures r.height.Some? <==> top.Some? && bottom.Some?
    ensures r.height.Some? ==> r.height.value >= minHeight && r.height.value >= bottom.value - top.value
    ensures r.height.Some? ==> r.height.value == minHeight || r.height.value == bottom.value - top.value
  {
    var height :=
      match (top, bottom)
      case (Some(s), Some(e)) =>
        var duration := e - s;
        Some(if duration > minHeight then duration else minHeight)
      case _ => None;
    Placement(top, height)
  }

  /**
   * On backend times the block is placed from the minutes of the day alone:
   * seconds are ignored and the readings are exact.
   */
  lemma PositionOfTimes(h1: nat, m1: nat, s1: nat, h2: nat, m2: nat, s2: nat, minHeight: int)
    requires h1 < 24 && m1 < 60 && s1 < 60 && h2 < 24 && m2 < 60 && s2 < 60
    ensures EventPosition(TimeText(h1, m1, s1), TimeText(h2, m2, s2), minHeight)
            == Place(Some(MinuteOfDay(h1, m1)), Some(MinuteOfDay(h2, m2)), minHeight)
  {
    MinutesOfTimeText(h1, m1, s1);
    MinutesOfTimeText(h2, m2, s2);
  }

  /** Times that read as `s` and `e` minutes give the block from `s`, `e - s` tall or the minimum. */
  lemma PositionOfMinutes(start: string, end: string, s: int, e: int, minHeight: int)
    requires MinutesOf(start) == Some(s) && MinutesOf(end) == Some(e)
    ensures EventPosition(start, end, minHeight)
            == Placement(Some(s), Some(if e - s > minHeight then e - s else minHeight))
  {
  }

  /** 09:00 to 10:30 sits 540 minutes down and is 90 minutes tall. */
  lemma NineToHalfPastTen(minHeight: int)
    requires minHeight <= 90
    ensures EventPosition(ClockText(9, 0), ClockText(10, 30), minHeight) == Placement(Some(540), Some(90))
  {
    MinutesOfClockText(9, 0);
    MinutesOfClockText(10, 30);
  }

  /**
   * An end time without a minutes piece ("10") leaves the block at the
   * start's minute, with a NaN height.
   */
  lemma UnreadableEndKeepsTop(minHeight: int)
    ensures EventPosition(ClockText(9, 0), "10", minHeight) == Placement(Some(540), None)
  {
    MinutesOfClockText(9, 0);
    FieldOfPlain("10", ':');
  }

  /** "AM" before noon, "PM" from noon on. */
  function Meridiem(h: int): string {
    if h >= 12 then "PM" else "AM"
  }

  /** The hour on a 12-hour clock face: 0 and 12 show as 12. */
  function TwelveHour(h: nat): (r: nat)
    ensures 1 <= r <= 12
    ensures r % 12 == h % 12
  {
    if h % 12 == 0 then 12 else h % 12
  }

  /** `formatHour`, the label of an hour row in the day and week views. */
  function HourLabel(hour: int): string {
    if hour == 0 then "12 AM"
    else if hour == 12 then "12 PM"
    else if hour < 12 then IntText(hour) + " AM"
    else IntText(hour - 12) + " PM"
  }

  lemma TwelveText()
    ensures NatText(12) == "12"
  {
    assert NatText(12) == NatText(1) + [DigitChar(2)];
  }

  /** Every row label is the 12-hour clock hour followed by the half of the day. */
  lemma HourLabelIsTwelveHour(hour: nat)
    requires hour < 24
    ensures HourLabel(hour) == NatText(TwelveHour(hour)) + " " + Meridiem(hour)
  {
    if hour == 0 || hour == 12 {
      TwelveText();
    } else if hour < 12 {
      assert TwelveHour(hour) == hour;
    } else {
      assert TwelveHour(hour) == hour - 12;
    }
  }

  /** The 12-hour clock hour and the half of the day give back the hour. */
  lemma TwelveHourMeridiemDetermineHour(a: nat, b: nat)
    requires a < 24 && b < 24
    requires TwelveHour(a) == TwelveHour(b) && Meridiem(a) == Meridiem(b)
    ensures a == b
  {
    assert Meridiem(a) == "PM" <==> a >= 12;
    assert Meridiem(b) == "PM" <==> b >= 12;
  }

  lemma SplitLabel(t1: string, t2: string, s1: string, s2: string)
    requires |s1| == 2 && |s2| == 2 && t1 + " " + s1 == t2 + " " + s2
    ensures t1 == t2 && s1 == s2
  {
    var l := t1 + " " + s1;
    assert l[..|l| - 3] == t1 && l[|l| - 2..] == s1;
    var r := t2 + " " + s2;
    assert r[..|r| - 3] == t2 && r[|r| - 2..] == s2;
  }

  /** The 24 row labels are all different. */
  lemma HourLabelsDistinct(a: nat, b: nat)
    requires a < 24 && b < 24 && HourLabel(a) == HourLabel(b)
    ensures a == b
  {
    HourLabelIsTwelveHour(a);
    HourLabelIsTwelveHour(b);
    SplitLabel(NatText(TwelveHour(a)), NatText(TwelveHour(b)), Meridiem(a), Meridiem(b));
    NatTextInjective(TwelveHour(a), TwelveHour(b));
    TwelveHourMeridiemDetermineHour(a, b);
  }

  /** Earlier minute of the day: earlier hour, or same hour and earlier minute. */
  lemma MinuteOfDayOrder(h1: nat, m1: nat, h2: nat, m2: nat)
    requires ValidClock(h1, m1) && ValidClock(h2, m2)
    ensures MinuteOfDay(h1, m1) < MinuteOfDay(h2, m2) <==> h1 < h2 || (h1 == h2 && m1 < m2)
  {
  }

  /**
   * For real times of day, comparing "HH:MM" texts as strings (as the event
   * form does) agrees with comparing the times.
   */
  lemma ClockTextOrder(h1: nat, m1: nat, h2: nat, m2: nat)
    requires ValidClock(h1, m1) && ValidClock(h2, m2)
    ensures StrLess(ClockText(h1, m1), ClockText(h2, m2)) <==> MinuteOfDay(h1, m1) < MinuteOfDay(h2, m2)
  {
    Pad2Order(h1, h2);
    Pad2Order(m1, m2);
    Pad2Chars(h1);
    Pad2Chars(h2);
    SeparatedOrder(Pad2(h1), Pad2(m1), Pad2(h2), Pad2(m2), ':');
    MinuteOfDayOrder(h1, m1, h2, m2);
  }

  lemma Pad2Chars(n: nat)
    requires n < 100
    ensures |Pad2(n)| == 2
  {
    Pad2Digits(n);
  }
}
