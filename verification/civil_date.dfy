/**
 * Proleptic Gregorian civil dates with 1-based months, and the arithmetic the
 * calendar views get from the JavaScript `Date` object: month lengths, the
 * weekday of a date, stepping by days, and the normalising constructor
 * `new Date(year, monthIndex, day)` that `setDate` and `setMonth` reduce to.
 *
 * Every date is numbered by the days elapsed since 0001-01-01 (`DayNumber`);
 * that numbering is the reference against which stepping and weekdays are
 * proved.
 */
module CivilDate {

  datatype Date = Date(year: int, month: int, day: int) {
    /** A real calendar day: month 1..12 and day within that month's length. */
    predicate Valid() {
      1 <= month <= 12 && 1 <= day <= DaysInMonth(year, month)
    }
  }

  predicate IsLeapYear(y: int) {
    y % 4 == 0 && (y % 100 != 0 || y % 400 == 0)
  }

  function DaysInMonth(y: int, m: int): (n: int)
    requires 1 <= m <= 12
    ensures 28 <= n <= 31
    ensures n == 29 <==> m == 2 && IsLeapYear(y)
    ensures n == 28 <==> m == 2 && !IsLeapYear(y)
    ensures n == 30 <==> (m == 4 || m == 6 || m == 9 || m == 11)
  {
    if m == 2 then (if IsLeapYear(y) then 29 else 28)
    else if (m == 4 || m == 6 || m == 9 || m == 11) then 30
    else 31
  }

  function DaysInYear(y: int): int {
    if IsLeapYear(y) then 366 else 365
  }

  /**
   * Days from 0001-01-01 to January 1st of year `y` (negative before year 1),
   * counted year by year; `DaysBeforeYearClosed` gives the usual closed form.
   */
  function DaysBeforeYear(y: int): int
    decreases if y < 1 then 1 - y else y - 1
  {
    if y == 1 then 0
    else if y > 1 then DaysBeforeYear(y - 1) + DaysInYear(y - 1)
    else DaysBeforeYear(y + 1) - DaysInYear(y)
  }

  /** Days from January 1st of `y` to the first of month `m`. */
  function DaysBeforeMonth(y: int, m: int): int
    requires 1 <= m <= 12
  {
    [0, 31, 59, 90, 120, 151, 181, 212, 243, 273, 304, 334][m - 1]
      + (if m > 2 && IsLeapYear(y) then 1 else 0)
  }

  /** Days elapsed since 0001-01-01 (which is day 0). */
  function DayNumber(d: Date): int
    requires 1 <= d.month <= 12
  {
    DaysBeforeYear(d.year) + DaysBeforeMonth(d.year, d.month) + d.day - 1
  }

  lemma MulAtLeast(x: int, k: int)
    requires x >= 1 && k > 0
    ensures x * k >= k
    decreases x
  {
    if x > 1 {
      MulAtLeast(x - 1, k);
      assert x * k == (x - 1) * k + k;
    }
  }

  /** Euclidean division is determined by its quotient/remainder equation. */
  lemma DivModUnique(a: int, k: int, q: int, r: int)
    requires k > 0 && 0 <= r < k && a == q * k + r
    ensures a / k == q && a % k == r
  {
    var q0, r0 := a / k, a % k;
    assert a == q0 * k + r0;
    assert (q - q0) * k == r0 - r;
    if q > q0 {
      MulAtLeast(q - q0, k);
    } else if q < q0 {
      assert (q0 - q) * k == r - r0;
      MulAtLeast(q0 - q, k);
    }
  }

  lemma DivStep(a: int, k: int)
    requires k > 0
    ensures a / k - (a - 1) / k == if a % k == 0 then 1 else 0
  {
    var q, r := (a - 1) / k, (a - 1) % k;
    if r + 1 == k {
      DivModUnique(a, k, q + 1, 0);
    } else {
      DivModUnique(a, k, q, r + 1);
    }
  }

  /** A multiple of `a * b` is a multiple of `a`. */
  lemma MultipleOfFactor(y: int, a: int, b: int)
    requires a > 0 && b > 0 && y % (a * b) == 0
    ensures y % a == 0
  {
    var q := y / (a * b);
    assert y == (a * b) * q;
    assert y == a * (b * q);
    DivModUnique(y, a, b * q, 0);
  }

  /** Consecutive years are a year's length apart. */
  lemma DaysBeforeYearStep(y: int)
    ensures DaysBeforeYear(y + 1) == DaysBeforeYear(y) + DaysInYear(y)
  {
    if y < 0 {
      assert DaysBeforeYear(y) == DaysBeforeYear(y + 1) - DaysInYear(y);
    }
  }

  /** The closed form of the count: 365 days a year plus one per leap year before it. */
  function LeapFormula(y: int): int {
    365 * (y - 1) + (y - 1) / 4 - (y - 1) / 100 + (y - 1) / 400
  }

  /** The closed form grows by a year's length from one year to the next. */
  lemma LeapFormulaStep(y: int)
    ensures LeapFormula(y + 1) == LeapFormula(y) + DaysInYear(y)
  {
    DivStep(y, 4);
    DivStep(y, 100);
    DivStep(y, 400);
    if y % 100 == 0 {
      MultipleOfFactor(y, 4, 25);
    }
    if y % 400 == 0 {
      MultipleOfFactor(y, 100, 4);
    }
  }

  /** The year-by-year count agrees with the closed form, in both directions from year 1. */
  lemma {:induction false} DaysBeforeYearClosed(y: int)
    ensures DaysBeforeYear(y) == LeapFormula(y)
    decreases if y < 1 then 1 - y else y - 1
  {
    if y > 1 {
      DaysBeforeYearClosed(y - 1);
      LeapFormulaStep(y - 1);
    } else if y < 1 {
      DaysBeforeYearClosed(y + 1);
      LeapFormulaStep(y);
      DaysBeforeYearStep(y);
    }
  }

  /** Consecutive months are a month's length apart, and December ends the year. */
  lemma DaysBeforeMonthStep(y: int, m: int)
    requires 1 <= m <= 12
    ensures m < 12 ==> DaysBeforeMonth(y, m + 1) == DaysBeforeMonth(y, m) + DaysInMonth(y, m)
    ensures m == 12 ==> DaysBeforeMonth(y, m) + DaysInMonth(y, m) == DaysInYear(y)
  {
  }

  /** A valid date's number lies within its year. */
  lemma DayNumberWithinYear(d: Date)
    requires d.Valid()
    ensures DaysBeforeYear(d.year) <= DayNumber(d) < DaysBeforeYear(d.year) + DaysInYear(d.year)
  {
    var m := d.month;
    if m < 12 {
      DaysBeforeMonthStep(d.year, m);
      assert DaysBeforeMonth(d.year, m + 1) <= DaysBeforeMonth(d.year, 12);
    }
    DaysBeforeMonthStep(d.year, 12);
  }

  /** Later years start strictly later. */
  lemma {:induction false} DaysBeforeYearMonotone(a: int, b: int)
    requires a <= b
    ensures DaysBeforeYear(a) + 365 * (b - a) <= DaysBeforeYear(b)
    decreases b - a
  {
    if a < b {
      DaysBeforeYearMonotone(a, b - 1);
      DaysBeforeYearStep(b - 1);
    }
  }

  /** Chronological order: year, then month, then day. */
  predicate Before(a: Date, b: Date) {
    a.year < b.year
    || (a.year == b.year && a.month < b.month)
    || (a.year == b.year && a.month == b.month && a.day < b.day)
  }

  /** Day numbers are strictly increasing in chronological order. */
  lemma BeforeIncreasesDayNumber(a: Date, b: Date)
    requires a.Valid() && b.Valid() && Before(a, b)
    ensures DayNumber(a) < DayNumber(b)
  {
    if a.year < b.year {
      DayNumberWithinYear(a);
      DayNumberWithinYear(b);
      DaysBeforeYearStep(a.year);
      DaysBeforeYearMonotone(a.year + 1, b.year);
    } else if a.month < b.month {
      DaysBeforeMonthStep(a.year, a.month);
      if a.month + 1 < b.month {
        assert DaysBeforeMonth(a.year, a.month + 1) <= DaysBeforeMonth(a.year, b.month);
      }
    }
  }

  /** Chronological order of valid dates is exactly the order of their day numbers. */
  lemma BeforeIffDayNumber(a: Date, b: Date)
    requires a.Valid() && b.Valid()
    ensures Before(a, b) <==> DayNumber(a) < DayNumber(b)
    ensures a == b <==> DayNumber(a) == DayNumber(b)
  {
    if Before(a, b) {
      BeforeIncreasesDayNumber(a, b);
    } else if Before(b, a) {
      BeforeIncreasesDayNumber(b, a);
    }
  }

  /** Two valid dates with the same number are the same date. */
  lemma DayNumberInjective(a: Date, b: Date)
    requires a.Valid() && b.Valid() && DayNumber(a) == DayNumber(b)
    ensures a == b
  {
    BeforeIffDayNumber(a, b);
  }

  /** Day of the week, 0 = Sunday .. 6 = Saturday (`Date.prototype.getDay`). */
  function Weekday(d: Date): (w: int)
    requires 1 <= d.month <= 12
    ensures 0 <= w < 7
  {
    // 0001-01-01 of the proleptic Gregorian calendar is a Monday.
    (DayNumber(d) + 1) % 7
  }

  /** 1970-01-01, the JavaScript epoch, is a Thursday. */
  lemma EpochIsThursday(epoch: Date)
    requires epoch == Date(1970, 1, 1)
    ensures Weekday(epoch) == 4
  {
    DaysBeforeYearClosed(epoch.year);
  }

  /** The following day. */
  function Next(d: Date): (r: Date)
    requires d.Valid()
    ensures r.Valid()
  {
    if d.day < DaysInMonth(d.year, d.month) then Date(d.year, d.month, d.day + 1)
    else if d.month < 12 then Date(d.year, d.month + 1, 1)
    else Date(d.year + 1, 1, 1)
  }

  /** The following day is one day later. */
  lemma NextDayNumber(d: Date)
    requires d.Valid()
    ensures DayNumber(Next(d)) == DayNumber(d) + 1
  {
    if d.day == DaysInMonth(d.year, d.month) {
      DaysBeforeMonthStep(d.year, d.month);
      DaysBeforeYearStep(d.year);
    }
  }

  /** The preceding day. */
  function Prev(d: Date): (r: Date)
    requires d.Valid()
    ensures r.Valid()
  {
    if d.day > 1 then Date(d.year, d.month, d.day - 1)
    else if d.month > 1 then Date(d.year, d.month - 1, DaysInMonth(d.year, d.month - 1))
    else Date(d.year - 1, 12, 31)
  }

  /** The preceding day is one day earlier. */
  lemma PrevDayNumber(d: Date)
    requires d.Valid()
    ensures DayNumber(Prev(d)) == DayNumber(d) - 1
  {
    if d.day == 1 {
      if d.month > 1 {
        DaysBeforeMonthStep(d.year, d.month - 1);
      } else {
        DaysBeforeMonthStep(d.year - 1, 12);
        DaysBeforeYearStep(d.year - 1);
      }
    }
  }

  /** The date `k` days after `d` (before it when `k` is negative). */
  function AddDays(d: Date, k: int): (r: Date)
    requires d.Valid()
    ensures r.Valid()
    decreases if k < 0 then -k else k
  {
    if k == 0 then d
    else if k > 0 then AddDays(Next(d), k - 1)
    else AddDays(Prev(d), k + 1)
  }

  /** Shifting by `k` days moves the day number by `k`. */
  lemma {:induction false} AddDaysDayNumber(d: Date, k: int)
    requires d.Valid()
    ensures DayNumber(AddDays(d, k)) == DayNumber(d) + k
    decreases if k < 0 then -k else k
  {
    if k > 0 {
      NextDayNumber(d);
      AddDaysDayNumber(Next(d), k - 1);
    } else if k < 0 {
      PrevDayNumber(d);
      AddDaysDayNumber(Prev(d), k + 1);
    }
  }

  /** Shifting twice is shifting by the sum. */
  lemma AddDaysCompose(d: Date, a: int, b: int)
    requires d.Valid()
    ensures AddDays(AddDays(d, a), b) == AddDays(d, a + b)
  {
    AddDaysDayNumber(d, a);
    AddDaysDayNumber(AddDays(d, a), b);
    AddDaysDayNumber(d, a + b);
    DayNumberInjective(AddDays(AddDays(d, a), b), AddDays(d, a + b));
  }

  /** Adding to a number adds to its remainder modulo 7. */
  lemma ModSevenAdd(a: int, k: int)
    ensures (a + k) % 7 == (a % 7 + k) % 7
  {
    var r := a % 7 + k;
    DivModUnique(a + k, 7, a / 7 + r / 7, r % 7);
  }

  /** Shifting by `k` days advances the weekday by `k` modulo 7. */
  lemma WeekdayAfter(d: Date, k: int)
    requires d.Valid()
    ensures Weekday(AddDays(d, k)) == (Weekday(d) + k) % 7
  {
    var a, n := AddDays(d, k), DayNumber(d) + 1;
    AddDaysDayNumber(d, k);
    assert DayNumber(a) + 1 == n + k;
    ModSevenAdd(n, k);
  }

  /** A date `i` days after the Sunday on or before `d` falls on weekday `i`. */
  lemma WeekdayFromSunday(x: Date, d: Date, i: int)
    requires 1 <= x.month <= 12 && 1 <= d.month <= 12 && 0 <= i < 7
    requires DayNumber(x) == DayNumber(d) - Weekday(d) + i
    ensures Weekday(x) == i
  {
    DivModUnique(DayNumber(x) + 1, 7, (DayNumber(d) + 1) / 7, i);
  }

  /** Dates a whole number of weeks apart share their weekday. */
  lemma WeekdayWeeksApart(x: Date, d: Date, q: int)
    requires 1 <= x.month <= 12 && 1 <= d.month <= 12
    requires DayNumber(x) == DayNumber(d) + 7 * q
    ensures Weekday(x) == Weekday(d)
  {
    DivModUnique(DayNumber(x) + 1, 7, (DayNumber(d) + 1) / 7 + q, Weekday(d));
  }

  /** Month `m` of year `y` as a single count of months (0 = January of year 0). */
  function MonthIndex(y: int, m: int): int {
    y * 12 + m - 1
  }

  /** The first day of the month with the given month count. */
  function FirstOfMonth(index: int): (r: Date)
    ensures r.Valid() && r.day == 1
    ensures MonthIndex(r.year, r.month) == index
  {
    Date(index / 12, index % 12 + 1, 1)
  }

  /**
   * ECMAScript's MakeDay, the normalising behind `setMonth`, `setDate` and
   * the numeric `Date` constructor, with a 0-based `monthIndex`: out-of-range
   * months carry into the year, and the day counts from the first of that
   * month, so day 0 is the last day of the previous month and days past the
   * month's end run into the next one.
   */
  function MakeDate(year: int, monthIndex: int, day: int): (r: Date)
    ensures r.Valid()
  {
    AddDays(FirstOfMonth(year * 12 + monthIndex), day - 1)
  }

  /** The normalised date is `day - 1` days after the first of the month. */
  lemma MakeDateDayNumber(year: int, monthIndex: int, day: int)
    ensures DayNumber(MakeDate(year, monthIndex, day)) == DayNumber(FirstOfMonth(year * 12 + monthIndex)) + day - 1
  {
    AddDaysDayNumber(FirstOfMonth(year * 12 + monthIndex), day - 1);
  }

  /** The month count of a valid month leads back to its first day. */
  lemma FirstOfOwnMonth(y: int, m: int)
    requires 1 <= m <= 12
    ensures FirstOfMonth(y * 12 + m - 1) == Date(y, m, 1)
  {
    DivModUnique(y * 12 + m - 1, 12, y, m - 1);
  }

  /** Day `day` of a month is `day - 1` days after its first. */
  lemma DayNumberFromFirst(d: Date)
    requires d.Valid()
    ensures DayNumber(d) == DayNumber(Date(d.year, d.month, 1)) + d.day - 1
  {
  }

  /** An in-range day needs no normalising. */
  lemma MakeDateInRange(y: int, m: int, day: int)
    requires 1 <= m <= 12 && 1 <= day <= DaysInMonth(y, m)
    ensures MakeDate(y, m - 1, day) == Date(y, m, day)
  {
    FirstOfOwnMonth(y, m);
    MakeDateDayNumber(y, m - 1, day);
    DayNumberFromFirst(Date(y, m, day));
    DayNumberInjective(MakeDate(y, m - 1, day), Date(y, m, day));
  }

  /** The first of the month after `m`, as a month count, is one day past its last day. */
  lemma FirstOfNextMonth(y: int, m: int)
    requires 1 <= m <= 12
    ensures DayNumber(FirstOfMonth(y * 12 + m)) == DayNumber(Date(y, m, DaysInMonth(y, m))) + 1
  {
    if m < 12 {
      FirstOfOwnMonth(y, m + 1);
      MonthAfterMonthEnd(y, m);
    } else {
      FirstOfOwnMonth(y + 1, 1);
      NewYearAfterDecember(y);
    }
  }

  /** The first of a month follows the last day of the month before, within a year. */
  lemma MonthAfterMonthEnd(y: int, m: int)
    requires 1 <= m < 12
    ensures DayNumber(Date(y, m + 1, 1)) == DayNumber(Date(y, m, DaysInMonth(y, m))) + 1
  {
    DaysBeforeMonthStep(y, m);
  }

  /** January 1st follows December 31st. */
  lemma NewYearAfterDecember(y: int)
    ensures DayNumber(Date(y + 1, 1, 1)) == DayNumber(Date(y, 12, 31)) + 1
  {
    DaysBeforeMonthStep(y, 12);
    DaysBeforeYearStep(y);
  }

  /** Day 0 of the following month is the last day of the month. */
  lemma MakeDateDayZero(y: int, m: int)
    requires 1 <= m <= 12
    ensures MakeDate(y, m, 0) == Date(y, m, DaysInMonth(y, m))
  {
    FirstOfNextMonth(y, m);
    MakeDateDayNumber(y, m, 0);
    DayNumberInjective(MakeDate(y, m, 0), Date(y, m, DaysInMonth(y, m)));
  }

  /**
   * The year the numeric `Date` constructor uses: a year from 0 to 99 is
   * read as 1900 plus that year (MakeFullYear in the `Date` constructor of
   * ECMA-262); `setMonth` and `setDate` keep the year as it is.
   */
  function FullYear(year: int): (r: int)
    ensures r < 0 || r >= 100
    ensures r == year <==> !(0 <= year <= 99)
    ensures r != year ==> r == year + 1900
  {
    if 0 <= year <= 99 then 1900 + year else year
  }

  /** `new Date(year, monthIndex, day)`: the year as the constructor reads it, then normalised. */
  function ConstructDate(year: int, monthIndex: int, day: int): (r: Date)
    ensures r.Valid()
  {
    MakeDate(FullYear(year), monthIndex, day)
  }

  /**
   * A day inside its month gives that date, in the year the constructor
   * reads: the year itself, or 1900 plus it for a year from 0 to 99.
   */
  lemma ConstructDateInRange(y: int, m: int, day: int)
    requires 1 <= m <= 12 && 1 <= day <= DaysInMonth(FullYear(y), m)
    ensures ConstructDate(y, m - 1, day) == Date(FullYear(y), m, day)
    ensures !(0 <= y <= 99) ==> ConstructDate(y, m - 1, day) == Date(y, m, day)
  {
    MakeDateInRange(FullYear(y), m, day);
  }

  /** Day 0 of the following month is the last day of the month, in the year the constructor reads. */
  lemma ConstructDateDayZero(y: int, m: int)
    requires 1 <= m <= 12
    ensures ConstructDate(y, m, 0) == Date(FullYear(y), m, DaysInMonth(FullYear(y), m))
    ensures !(0 <= y <= 99) ==> ConstructDate(y, m, 0) == Date(y, m, DaysInMonth(y, m))
  {
    MakeDateDayZero(FullYear(y), m);
  }

  /**
   * `d.setDate(d.getDate() + k)`: the same year and month with the day moved
   * by `k`, normalised; no year is reinterpreted.
   */
  function ShiftDay(d: Date, k: int): (r: Date)
    ensures r.Valid()
  {
    MakeDate(d.year, d.month - 1, d.day + k)
  }

  /** Moving the day of the month by `k` moves the date by `k` days. */
  lemma ShiftDayIsAddDays(d: Date, k: int)
    requires d.Valid()
    ensures ShiftDay(d, k) == AddDays(d, k)
  {
    MakeDateOwnMonth(d.year, d.month, d.day + k);
    AddDaysDayNumber(d, k);
    DayNumberFromFirst(d);
    DayNumberInjective(ShiftDay(d, k), AddDays(d, k));
  }

  /** Moving the day by `a` and then by `b` is moving it by their sum `c`. */
  lemma ShiftDayCompose(d: Date, a: int, b: int, c: int)
    requires d.Valid() && c == a + b
    ensures ShiftDay(ShiftDay(d, a), b) == ShiftDay(d, c)
  {
    var x := ShiftDay(d, a);
    ShiftDayNumber(d, a);
    ShiftDayNumber(x, b);
    ShiftDayNumber(d, c);
    DayNumberInjective(ShiftDay(x, b), ShiftDay(d, c));
  }

  /** Day `day` of a valid month, counted from its first (and normalised). */
  lemma MakeDateOwnMonth(y: int, m: int, day: int)
    requires 1 <= m <= 12
    ensures DayNumber(MakeDate(y, m - 1, day)) == DayNumber(Date(y, m, 1)) + day - 1
  {
    FirstOfOwnMonth(y, m);
    MakeDateDayNumber(y, m - 1, day);
    assert y * 12 + (m - 1) == y * 12 + m - 1;
  }

  /** Moving the day of the month by `k` moves the day number by `k`. */
  lemma ShiftDayNumber(d: Date, k: int)
    requires d.Valid()
    ensures DayNumber(ShiftDay(d, k)) == DayNumber(d) + k
  {
    ShiftDayIsAddDays(d, k);
    AddDaysDayNumber(d, k);
  }

  /** The first of the next month count comes a whole month after the first of this one. */
  lemma NextFirstOfMonth(index: int)
    ensures var t := FirstOfMonth(index);
      DayNumber(FirstOfMonth(index + 1)) == DayNumber(t) + DaysInMonth(t.year, t.month)
  {
    var t := FirstOfMonth(index);
    FirstOfNextMonth(t.year, t.month);
    DayNumberFromFirst(Date(t.year, t.month, DaysInMonth(t.year, t.month)));
  }

  /** The date `day - 1` days after a first of month, when it is still in that month. */
  lemma DayInMonthFromFirst(first: Date, r: Date, day: int)
    requires first.Valid() && first.day == 1 && r.Valid()
    requires 1 <= day <= DaysInMonth(first.year, first.month)
    requires DayNumber(r) == DayNumber(first) + day - 1
    ensures r == Date(first.year, first.month, day)
  {
    DayNumberFromFirst(Date(first.year, first.month, day));
    DayNumberInjective(r, Date(first.year, first.month, day));
  }

  /** One more day is the day after. */
  lemma AddDaysNext(d: Date, k: int)
    requires d.Valid()
    ensures AddDays(d, k + 1) == Next(AddDays(d, k))
  {
    NextDayNumber(AddDays(d, k));
    AddDaysDayNumber(d, k);
    AddDaysDayNumber(d, k + 1);
    DayNumberInjective(AddDays(d, k + 1), Next(AddDays(d, k)));
  }

  /** A date `k` days after `a` that stays within `a`'s month. */
  lemma ShiftWithinMonth(a: Date, r: Date, k: int)
    requires a.Valid() && r.Valid() && 1 <= a.day + k <= DaysInMonth(a.year, a.month)
    requires DayNumber(r) == DayNumber(a) + k
    ensures r == Date(a.year, a.month, a.day + k)
  {
    DayNumberFromFirst(a);
    DayNumberFromFirst(Date(a.year, a.month, a.day + k));
    DayNumberInjective(r, Date(a.year, a.month, a.day + k));
  }

  /** A date `k` days after `a` that runs at most 28 days into the following month. */
  lemma ShiftIntoNextMonth(a: Date, r: Date, k: int)
    requires a.Valid() && r.Valid()
    requires DaysInMonth(a.year, a.month) < a.day + k <= DaysInMonth(a.year, a.month) + 28
    requires DayNumber(r) == DayNumber(a) + k
    ensures var n := FirstOfMonth(MonthIndex(a.year, a.month) + 1);
      r == Date(n.year, n.month, a.day + k - DaysInMonth(a.year, a.month))
  {
    var index := MonthIndex(a.year, a.month);
    FirstOfOwnMonth(a.year, a.month);
    NextFirstOfMonth(index);
    DayNumberFromFirst(a);
    DayInMonthFromFirst(FirstOfMonth(index + 1), r, a.day + k - DaysInMonth(a.year, a.month));
  }
}
