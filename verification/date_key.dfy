/**
 * The `YYYY-MM-DD` text that joins events to calendar cells. The views build
 * it with a template literal, so the month and day are zero-padded to two
 * digits but the year is written as JavaScript writes any number: four
 * digits for the years the app is used with, fewer for years before 1000 and
 * with a minus sign before year 0. The backend writes dates as ISO 8601 text,
 * with the year padded to four digits.
 */
module DateKey {
  import opened Wrappers
  import opened Text
  import opened CivilDate

  /** `${year}-${String(month).padStart(2, '0')}-${String(day).padStart(2, '0')}`. */
  function FormatDate(d: Date): string
    requires d.Valid()
  {
    IntText(d.year) + MonthDayText(d.month, d.day)
  }

  /** The fixed-width "-MM-DD" end of a key. */
  function MonthDayText(month: nat, day: nat): string {
    "-" + Pad2(month) + "-" + Pad2(day)
  }

  /** The value of two decimal digit characters. */
  function TwoDigits(a: char, b: char): Option<nat> {
    if IsDigit(a) && IsDigit(b) then Some(DigitValue(a) * 10 + DigitValue(b)) else None
  }

  /** The inverse of `FormatDate`: the last six characters hold "-MM-DD", the rest the year. */
  function ParseDateKey(s: string): Option<Date> {
    if |s| < 7 then None
    else
      var t := s[|s| - 6..];
      if t[0] != '-' || t[3] != '-' then None
      else match (ParseIntText(s[..|s| - 6]), TwoDigits(t[1], t[2]), TwoDigits(t[4], t[5]))
        case (Some(y), Some(m), Some(d)) => Some(Date(y, m, d))
        case _ => None
  }

  /** Formatting then parsing gives back the date, so every valid date has its own key. */
  lemma ParseFormatRoundTrip(d: Date)
    requires d.Valid()
    ensures ParseDateKey(FormatDate(d)) == Some(d)
  {
    Pad2Value(d.month);
    Pad2Value(d.day);
    ParseIntTextRoundTrip(d.year);
    ParseKeyPieces(IntText(d.year), Pad2(d.month), Pad2(d.day), d.year);
  }

  lemma Pad2Value(n: nat)
    requires n < 100
    ensures |Pad2(n)| == 2 && TwoDigits(Pad2(n)[0], Pad2(n)[1]) == Some(n)
  {
    Pad2Digits(n);
    DigitRoundTrip(n / 10);
    DigitRoundTrip(n % 10);
  }

  lemma ParseKeyPieces(y: string, mm: string, dd: string, year: int)
    requires |mm| == 2 && |dd| == 2
    requires ParseIntText(y) == Some(year)
    ensures var t := "-" + mm + "-" + dd;
      ParseDateKey(y + t) == match (TwoDigits(mm[0], mm[1]), TwoDigits(dd[0], dd[1]))
        case (Some(m), Some(d)) => Some(Date(year, m, d))
        case _ => None
  {
    var t := "-" + mm + "-" + dd;
    var s := y + t;
    assert s[|s| - 6..] == t && s[..|s| - 6] == y;
  }

  /** Distinct valid dates have distinct keys. */
  lemma FormatDateInjective(a: Date, b: Date)
    requires a.Valid() && b.Valid()
    ensures FormatDate(a) == FormatDate(b) <==> a == b
  {
    if FormatDate(a) == FormatDate(b) {
      ParseFormatRoundTrip(a);
      ParseFormatRoundTrip(b);
    }
  }

  /** For four-digit years the key is exactly ten characters, dashes at 4 and 7, digits elsewhere. */
  lemma FormatDateShape(d: Date)
    requires d.Valid() && 1000 <= d.year <= 9999
    ensures |FormatDate(d)| == 10
    ensures FormatDate(d)[4] == '-' && FormatDate(d)[7] == '-'
    ensures forall i :: 0 <= i < 10 && i != 4 && i != 7 ==> IsDigit(FormatDate(d)[i])
  {
    Pad2RoundTrip(d.month);
    Pad2RoundTrip(d.day);
    NatTextLength(d.year);
    KeyShapePieces(IntText(d.year), Pad2(d.month), Pad2(d.day));
  }

  lemma KeyShapePieces(y: string, mm: string, dd: string)
    requires |y| == 4 && |mm| == 2 && |dd| == 2
    requires AllDigits(y) && AllDigits(mm) && AllDigits(dd)
    ensures var s := y + ("-" + mm + "-" + dd);
      && |s| == 10 && s[4] == '-' && s[7] == '-'
      && forall i :: 0 <= i < 10 && i != 4 && i != 7 ==> IsDigit(s[i])
  {
    var s := y + ("-" + mm + "-" + dd);
    forall i | 0 <= i < 10 && i != 4 && i != 7
      ensures IsDigit(s[i])
    {
      if i < 4 {
        assert s[i] == y[i];
      } else if i < 7 {
        assert s[i] == mm[i - 5];
      } else {
        assert s[i] == dd[i - 8];
      }
    }
  }

  /** ISO 8601 text of a date with a year in 1..9999, as the backend serialises it. */
  function IsoDate(d: Date): string
    requires d.Valid() && 1 <= d.year
  {
    PadStart(NatText(d.year), 4, '0') + MonthDayText(d.month, d.day)
  }

  /** From year 1000 on, the backend's text and the views' key agree. */
  lemma IsoDateMatchesKey(d: Date)
    requires d.Valid() && 1000 <= d.year
    ensures IsoDate(d) == FormatDate(d)
  {
    NatTextLength(d.year);
  }

  /**
   * `a.toDateString() === b.toDateString()`: the text names the weekday, the
   * month, the day and the year, and the weekday follows from the rest, so
   * two dates have the same text exactly when they are the same day.
   */
  function SameDay(a: Date, b: Date): (r: bool)
    requires a.Valid() && b.Valid()
    ensures r <==> FormatDate(a) == FormatDate(b)
  {
    FormatDateInjective(a, b);
    a == b
  }

  /** `onDateClick?.(formatDate(date))`: the key handed to the handler, when there is one. */
  function ReportDate(hasHandler: bool, d: Date): (r: Option<string>)
    requires d.Valid()
    ensures r.Some? <==> hasHandler
    ensures r.Some? ==> ParseDateKey(r.value) == Some(d)
  {
    if hasHandler then
      ParseFormatRoundTrip(d);
      Some(FormatDate(d))
    else None
  }
}
