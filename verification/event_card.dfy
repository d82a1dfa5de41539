/**
 * The time on an event card: the stored 24-hour time shown on a 12-hour
 * clock, "h:mm AM" or "h:mm PM".
 */
module EventCard {
  import opened Wrappers
  import opened Text
  import opened Clock
  import CivilDate

  /**
   * JavaScript's `a % b` for a positive divisor: the remainder takes the
   * sign of the dividend (Dafny's `%` never goes negative).
   */
  function JsRem(a: int, b: int): (r: int)
    requires b > 0
    ensures -b < r < b && (a - r) % b == 0
    ensures a >= 0 ==> r >= 0
    ensures a < 0 ==> r <= 0
  {
    if a >= 0 then
      CivilDate.DivModUnique(a - a % b, b, a / b, 0);
      a % b
    else
      CivilDate.DivModUnique(a + (-a) % b, b, -((-a) / b), 0);
      -((-a) % b)
  }

  /**
   * `formatTime`: no time or the empty string gives "". Otherwise the text
   * before the first ':' is read with `parseInt`, the text between the
   * first and second ':' is kept as it is (`undefined` when there is no
   * ':'), the suffix is "PM" from hour 12 on, and the hour shown is
   * `hour % 12`, with 0 (and NaN, which is falsy too) shown as 12.
   */
  function FormatTime(time: Option<string>): (r: string)
    ensures r == [] <==> time == None || time == Some([])
  {
    match time
    case None => ""
    case Some(t) =>
      if t == [] then ""
      else
        var minutes := match Field(t, ':', 1) case Some(m) => m case None => "undefined";
        match JsParseInt(t[..PieceEnd(t)])
        case None => "12:" + minutes + " AM"
        case Some(hour) =>
          var rem := JsRem(hour, 12);
          IntText(if rem == 0 then 12 else rem) + ":" + minutes + " " + (if hour >= 12 then "PM" else "AM")
  }

  /** Where the first ':'-piece of `t` ends. */
  function PieceEnd(t: string): (r: nat)
    ensures r <= |t|
    ensures Field(t, ':', 0) == Some(t[..r])
  {
    match IndexOf(t, ':')
    case Some(i) => FirstPiece(t, i); i
    case None => FirstPieceWhole(t); assert t[..|t|] == t; |t|
  }

  lemma FirstPiece(t: string, i: nat)
    requires IndexOf(t, ':') == Some(i)
    ensures Field(t, ':', 0) == Some(t[..i])
  {
    assert t == t[..i] + [':'] + t[i + 1..];
    FieldOfJoin(t[..i], ':', t[i + 1..]);
  }

  lemma FirstPieceWhole(t: string)
    requires IndexOf(t, ':') == None
    ensures Field(t, ':', 0) == Some(t)
  {
    FieldOfPlain(t, ':');
  }

  /**
   * A time whose hour piece reads as a non-negative number shows the hour
   * on a 12-hour clock face (1 to 12), the minutes piece verbatim, and "PM"
   * exactly from hour 12 on.
   */
  lemma FormatTimeShape(t: string, hours: string, minutes: string, hour: nat)
    requires Field(t, ':', 0) == Some(hours) && Field(t, ':', 1) == Some(minutes)
    requires JsParseInt(hours) == Some(hour)
    ensures FormatTime(Some(t)) == NatText(TwelveHour(hour)) + ":" + minutes + " " + Meridiem(hour)
    ensures 1 <= TwelveHour(hour) <= 12 && (Meridiem(hour) == "PM" <==> hour >= 12)
  {
    if t == [] {
      FieldOfPlain(t, ':');
      assert false;
    }
    var _ := PieceEnd(t);
  }

  /** An hour piece that is not a number shows as 12 AM. */
  lemma FormatTimeNotANumber(t: string, hours: string, minutes: string)
    requires t != [] && Field(t, ':', 0) == Some(hours) && Field(t, ':', 1) == Some(minutes)
    requires JsParseInt(hours) == None
    ensures FormatTime(Some(t)) == "12:" + minutes + " AM"
  {
    var _ := PieceEnd(t);
  }

  /** A backend time "HH:MM:SS" shows as the 12-hour clock hour, the padded minutes and the half of the day. */
  lemma FormatTimeOfTime(h: nat, m: nat, s: nat)
    requires h < 24 && m < 60 && s < 60
    ensures FormatTime(Some(TimeText(h, m, s))) == NatText(TwelveHour(h)) + ":" + Pad2(m) + " " + Meridiem(h)
  {
    Pad2NoColon(h);
    Pad2NoColon(m);
    FieldsOfTriple(Pad2(h), ':', Pad2(m), Pad2(s));
    HourPiece(h);
    FormatTimeShape(TimeText(h, m, s), Pad2(h), Pad2(m), h);
  }

  /** A form time "HH:MM" shows the same way. */
  lemma FormatTimeOfClockText(h: nat, m: nat)
    requires h < 24 && m < 60
    ensures FormatTime(Some(ClockText(h, m))) == NatText(TwelveHour(h)) + ":" + Pad2(m) + " " + Meridiem(h)
  {
    Pad2NoColon(h);
    Pad2NoColon(m);
    FieldsOfPair(Pad2(h), ':', Pad2(m));
    HourPiece(h);
    FormatTimeShape(ClockText(h, m), Pad2(h), Pad2(m), h);
  }

  lemma HourPiece(h: nat)
    requires h < 100
    ensures JsParseInt(Pad2(h)) == Some(h)
  {
    Pad2RoundTrip(h);
    JsParseIntDigits(Pad2(h));
  }

  /** Two times show the same on a card exactly when they agree to the minute: only the seconds are lost. */
  lemma FormatTimeDistinct(h1: nat, m1: nat, s1: nat, h2: nat, m2: nat, s2: nat)
    requires h1 < 24 && m1 < 60 && s1 < 60 && h2 < 24 && m2 < 60 && s2 < 60
    ensures FormatTime(Some(TimeText(h1, m1, s1))) == FormatTime(Some(TimeText(h2, m2, s2)))
            <==> h1 == h2 && m1 == m2
  {
    FormatTimeOfTime(h1, m1, s1);
    FormatTimeOfTime(h2, m2, s2);
    if FormatTime(Some(TimeText(h1, m1, s1))) == FormatTime(Some(TimeText(h2, m2, s2))) {
      CardTextDistinct(h1, m1, h2, m2);
    }
  }

  lemma CardTextDistinct(h1: nat, m1: nat, h2: nat, m2: nat)
    requires h1 < 24 && m1 < 60 && h2 < 24 && m2 < 60
    requires NatText(TwelveHour(h1)) + ":" + Pad2(m1) + " " + Meridiem(h1)
             == NatText(TwelveHour(h2)) + ":" + Pad2(m2) + " " + Meridiem(h2)
    ensures h1 == h2 && m1 == m2
  {
    var t1, t2 := TwelveHour(h1), TwelveHour(h2);
    var p1, p2 := Pad2(m1), Pad2(m2);
    var x1, x2 := Meridiem(h1), Meridiem(h2);
    assert |p1| == 2 && |p2| == 2 by {
      Pad2Chars(m1);
      Pad2Chars(m2);
    }
    SplitCardTime(NatText(t1), p1, x1, NatText(t2), p2, x2);
    assert t1 == t2 by {
      NatTextInjective(t1, t2);
    }
    assert h1 == h2 by {
      TwelveHourMeridiemDetermineHour(h1, h2);
    }
    assert m1 == m2 by {
      Pad2Order(m1, m2);
    }
  }

  lemma SplitCardTime(a1: string, m1: string, x1: string, a2: string, m2: string, x2: string)
    requires |m1| == 2 && |x1| == 2 && |m2| == 2 && |x2| == 2
    requires a1 + ":" + m1 + " " + x1 == a2 + ":" + m2 + " " + x2
    ensures a1 == a2 && m1 == m2 && x1 == x2
  {
    var l := a1 + ":" + m1 + " " + x1;
    assert l[..|l| - 6] == a1 && l[|l| - 5..|l| - 3] == m1 && l[|l| - 2..] == x1;
    var r := a2 + ":" + m2 + " " + x2;
    assert r[..|r| - 6] == a2 && r[|r| - 5..|r| - 3] == m2 && r[|r| - 2..] == x2;
  }
}
