/**
 Partition intervals (internal/common/intervals.go) and their stepping
 (pkg/database/partman/partman_intervals.go). Every kind of interval numbers the intervals of
 the day axis: days, weeks from a Monday, months, quarters and years. The reference for the date
 expressions of the code is that numbering.
 */
module Intervals {
  import opened Julian
  import RingIndex
  import opened CivilTime
  import IsoWeek

  const DAYS_IN_WEEK := 7
  const MONTHS_IN_QUARTER := 3

  datatype Interval = Daily | Weekly | Monthly | Quarterly | Yearly

  // ---- The bounds of the interval of a time ---------------------------------------------------

  function Midnight(t: Time): Time {
    var d := CivilDate(t);
    GoDate(d.year, d.month, d.day)
  }

  function GetDailyBounds(t: Time): (r: (Time, Time)) {
    var lower := Midnight(t);
    (lower, AddDate(lower, 0, 0, 1))
  }

  function GetWeeklyBounds(t: Time): (r: (Time, Time)) {
    var lower := AddDate(Midnight(t), 0, 0, -(Weekday(t) - 1));
    (lower, AddDate(lower, 0, 0, DAYS_IN_WEEK))
  }

  function GetMonthlyBounds(t: Time): (r: (Time, Time)) {
    var d := CivilDate(t);
    var lower := GoDate(d.year, d.month, 1);
    (lower, AddDate(lower, 0, 1, 0))
  }

  function GetQuarterlyBounds(t: Time): (r: (Time, Time)) {
    var d := CivilDate(t);
    var quarter := (d.month - 1) / MONTHS_IN_QUARTER;
    var lower := GoDate(d.year, quarter * MONTHS_IN_QUARTER + 1, 1);
    (lower, AddDate(lower, 0, MONTHS_IN_QUARTER, 0))
  }

  function GetYearlyBounds(t: Time): (r: (Time, Time)) {
    var d := CivilDate(t);
    var lower := GoDate(d.year, 1, 1);
    (lower, AddDate(lower, 1, 0, 0))
  }

  function Bounds(iv: Interval, t: Time): (r: (Time, Time)) {
    match iv
    case Daily => GetDailyBounds(t)
    case Weekly => GetWeeklyBounds(t)
    case Monthly => GetMonthlyBounds(t)
    case Quarterly => GetQuarterlyBounds(t)
    case Yearly => GetYearlyBounds(t)
  }

  /** The first of an earlier month of a year from 1 on is a date from year 1 on. */
  lemma FirstOfMonth(d: Date, month: int)
    requires ValidDate(d) && d.year >= -4716 && JulianOf(d) >= YEAR_ONE && 1 <= month <= 12
    ensures d.year >= 1
    ensures GoDate(d.year, month, 1) == Time(JulianOf(Date(d.year, month, 1)), 0)
    ensures GoDate(d.year, month, 1).jdn >= YEAR_ONE
    ensures CivilDate(GoDate(d.year, month, 1)) == Date(d.year, month, 1)
  {
    hide DateToJulian, JulianToDate;
    var f := Date(d.year, month, 1);
    YearOneDates(d);
    YearOneDates(f);
    GoDateOfDate(f);
    DateRoundTrip(f);
  }

  // ---- The numbering of intervals -------------------------------------------------------------------

  /** The number of the interval that holds a day. */
  function Index(iv: Interval, jdn: int): int {
    var d := JulianToDate(jdn);
    match iv
    case Daily => jdn
    case Weekly => jdn / 7
    case Monthly => MonthIndex(d)
    case Quarterly => MonthIndex(d) / 3
    case Yearly => d.year
  }

  /** The first day of interval k. */
  function Start(iv: Interval, k: int): int {
    match iv
    case Daily => k
    case Weekly => 7 * k
    case Monthly => MonthStart(k)
    case Quarterly => MonthStart(3 * k)
    case Yearly => MonthStart(12 * k)
  }

  /** The number of the interval that starts with year 1. */
  function FirstIndex(iv: Interval): int {
    match iv
    case Daily => YEAR_ONE
    case Weekly => YEAR_ONE / 7
    case Monthly => 12
    case Quarterly => 4
    case Yearly => 1
  }

  function StartTime(iv: Interval, k: int): Time {
    Time(Start(iv, k), 0)
  }

  lemma MonthStartsInOrder(a: int, b: int)
    requires 12 * -4799 <= a < b
    ensures MonthStart(a) < MonthStart(b)
  {
    hide MonthStart;
    MonthsInOrder(a, b);
  }

  lemma StartsInOrder(iv: Interval, a: int, b: int)
    requires FirstIndex(iv) <= a < b
    ensures Start(iv, a) < Start(iv, b)
  {
    hide MonthStart;
    match iv
    case Daily =>
    case Weekly =>
    case Monthly => MonthStartsInOrder(a, b);
    case Quarterly => MonthStartsInOrder(3 * a, 3 * b);
    case Yearly => MonthStartsInOrder(12 * a, 12 * b);
  }

  lemma FirstStart(iv: Interval, k: int)
    requires k >= FirstIndex(iv)
    ensures Start(iv, k) >= YEAR_ONE
  {
    YearOneMonth();
    hide MonthStart;
    assert Start(iv, FirstIndex(iv)) == YEAR_ONE;
    if k > FirstIndex(iv) {
      StartsInOrder(iv, FirstIndex(iv), k);
    }
  }

  lemma YearOneMonth()
    ensures MonthStart(12) == YEAR_ONE
  {
    IsoWeek.ZeroYear();
  }

  /** A day lies in the month its date names. */
  lemma MonthHolds(jdn: int)
    requires jdn >= YEAR_ONE
    ensures var d := JulianToDate(jdn);
            ValidDate(d) && d.year >= 1
            && MonthStart(MonthIndex(d)) <= jdn < MonthStart(MonthIndex(d) + 1)
  {
    hide MonthStart, JulianToDate, DateToJulian;
    DayRoundTrip(jdn);
    var d := JulianToDate(jdn);
    YearOneDates(d);
    JulianByMonth(d);
    MonthStep(MonthIndex(d));
  }

  lemma MonthsAtOrBefore(a: int, b: int)
    requires 12 * -4799 <= a <= b
    ensures MonthStart(a) <= MonthStart(b)
  {
    hide MonthStart;
    if a < b {
      MonthStartsInOrder(a, b);
    }
  }

  /** Each day lies in the interval with its number. */
  lemma IndexHolds(iv: Interval, jdn: int)
    requires jdn >= YEAR_ONE
    ensures Index(iv, jdn) >= FirstIndex(iv)
    ensures Start(iv, Index(iv, jdn)) <= jdn < Start(iv, Index(iv, jdn) + 1)
  {
    hide MonthStart, JulianToDate, DateToJulian;
    MonthHolds(jdn);
    var m := MonthIndex(JulianToDate(jdn));
    if iv.Quarterly? {
      MonthsAtOrBefore(3 * (m / 3), m);
      MonthsAtOrBefore(m + 1, 3 * (m / 3 + 1));
    } else if iv.Yearly? {
      MonthsAtOrBefore(12 * (m / 12), m);
      MonthsAtOrBefore(m + 1, 12 * (m / 12 + 1));
    }
  }

  /** No day lies in two intervals. */
  lemma IndexUnique(iv: Interval, jdn: int, k: int)
    requires jdn >= YEAR_ONE && k >= FirstIndex(iv)
    ensures Start(iv, k) <= jdn < Start(iv, k + 1) <==> Index(iv, jdn) == k
  {
    hide Start, Index, FirstIndex;
    IndexHolds(iv, jdn);
    var i := Index(iv, jdn);
    if i < k {
      if i + 1 < k {
        StartsInOrder(iv, i + 1, k);
      }
    } else if k < i {
      if k + 1 < i {
        StartsInOrder(iv, k + 1, i);
      }
    }
  }

  lemma IndexOfStart(iv: Interval, k: int)
    requires k >= FirstIndex(iv)
    ensures Start(iv, k) >= YEAR_ONE
    ensures Index(iv, Start(iv, k)) == k
  {
    FirstStart(iv, k);
    StartsInOrder(iv, k, k + 1);
    IndexUnique(iv, Start(iv, k), k);
  }

  // ---- Bounds by number -------------------------------------------------------------------------------

  predicate SundayWeek(iv: Interval, t: Time) {
    iv.Weekly? && Weekday(t) == 0
  }

  /** Bounds are the interval that holds the time, except that a Sunday gets the week after. */
  lemma BoundsByIndex(iv: Interval, t: Time)
    requires ValidTime(t)
    ensures var k := Index(iv, t.jdn) + (if SundayWeek(iv, t) then 1 else 0);
            k >= FirstIndex(iv) && Bounds(iv, t) == (StartTime(iv, k), StartTime(iv, k + 1))
  {
    hide MonthStart, DateToJulian, JulianToDate, GetDailyBounds, GetWeeklyBounds, GetMonthlyBounds,
         GetQuarterlyBounds, GetYearlyBounds;
    IndexHolds(iv, t.jdn);
    match iv
    case Daily => DayBounds(t);
    case Weekly => WeekBounds(t);
    case Monthly => MonthlyBounds(t);
    case Quarterly => QuarterBounds(t);
    case Yearly => YearBounds(t);
  }

  lemma MonthlyBounds(t: Time)
    requires ValidTime(t)
    ensures var m := MonthIndex(JulianToDate(t.jdn));
            GetMonthlyBounds(t) == (Time(MonthStart(m), 0), Time(MonthStart(m + 1), 0))
  {
    hide MonthStart, DateToJulian, JulianToDate;
    var d := CivilDate(t);
    MonthBounds(d, d.month, 1);
  }

  lemma QuarterBounds(t: Time)
    requires ValidTime(t)
    ensures var q := MonthIndex(JulianToDate(t.jdn)) / 3;
            GetQuarterlyBounds(t) == (Time(MonthStart(3 * q), 0), Time(MonthStart(3 * (q + 1)), 0))
  {
    hide MonthStart, DateToJulian, JulianToDate, GoDate, AddDate, MonthIndex;
    var d := CivilDate(t);
    QuarterFirst(d);
    MonthBounds(d, (d.month - 1) / 3 * 3 + 1, 3);
  }

  lemma QuarterFirst(d: Date)
    requires 1 <= d.month <= 12
    ensures var first := (d.month - 1) / 3 * 3 + 1;
            1 <= first <= 10 && 12 * d.year + first - 1 == 3 * (MonthIndex(d) / 3)
  {}

  lemma YearBounds(t: Time)
    requires ValidTime(t)
    ensures var y := JulianToDate(t.jdn).year;
            GetYearlyBounds(t) == (Time(MonthStart(12 * y), 0), Time(MonthStart(12 * (y + 1)), 0))
  {
    hide MonthStart, DateToJulian, JulianToDate;
    var d := CivilDate(t);
    MonthBounds(d, 1, 12);
    AddYear(GoDate(d.year, 1, 1));
  }

  lemma DayBounds(t: Time)
    requires ValidTime(t)
    ensures GetDailyBounds(t) == (Time(t.jdn, 0), Time(t.jdn + 1, 0))
  {
    hide AddDate, Midnight;
    MidnightOf(t);
    AddDays(Midnight(t), 1);
  }

  lemma AddYear(t: Time)
    requires t.jdn >= FIRST_DAY
    ensures AddDate(t, 1, 0, 0) == AddDate(t, 0, 12, 0)
  {
    hide MonthStart, DateToJulian, JulianToDate;
  }

  lemma MonthBounds(d: Date, month: int, n: int)
    requires ValidDate(d) && d.year >= -4716 && JulianOf(d) >= YEAR_ONE && 1 <= month <= 12
    ensures var lower := GoDate(d.year, month, 1);
            lower == Time(MonthStart(12 * d.year + month - 1), 0)
            && lower.jdn >= YEAR_ONE
            && AddDate(lower, 0, n, 0) == Time(MonthStart(12 * d.year + month - 1 + n), 0)
  {
    hide MonthStart, DateToJulian, JulianToDate;
    FirstOfMonth(d, month);
  }

  lemma WeekBounds(t: Time)
    requires ValidTime(t)
    ensures var k := t.jdn / 7 + (if Weekday(t) == 0 then 1 else 0);
            GetWeeklyBounds(t) == (Time(7 * k, 0), Time(7 * (k + 1), 0))
  {
    hide AddDate, Midnight;
    MidnightOf(t);
    AddDays(Midnight(t), -(Weekday(t) - 1));
    AddDays(AddDate(Midnight(t), 0, 0, -(Weekday(t) - 1)), 7);
  }

  lemma MidnightOf(t: Time)
    requires ValidTime(t)
    ensures Midnight(t) == Time(t.jdn, 0)
  {
    hide DateToJulian, JulianToDate, MonthStart, ValidDate;
    GoDateOfDate(CivilDate(t));
  }

  /** A time lies within its own bounds exactly when it is not a Sunday asked for its week. */
  lemma BoundsHoldTime(iv: Interval, t: Time)
    requires ValidTime(t)
    ensures var (lower, upper) := Bounds(iv, t);
            AtOrBefore(lower, t) && StrictlyBefore(t, upper) <==> !SundayWeek(iv, t)
  {
    hide Index, Start, Bounds;
    BoundsByIndex(iv, t);
    IndexHolds(iv, t.jdn);
  }

  // ---- Stepping ------------------------------------------------------------------------------------------

  /** Partition.Next on times. */
  function Next(iv: Interval, t: Time, i: int): (r: Time) {
    var d := CivilDate(t);
    match iv
    case Daily => AddDate(t, 0, 0, i)
    case Weekly => AddDate(t, 0, 0, i * DAYS_IN_WEEK)
    case Monthly => GoDate(d.year, d.month + i, 1)
    case Quarterly => AddDate(t, 0, i * MONTHS_IN_QUARTER, 0)
    case Yearly => GoDate(d.year + i, 1, 1)
  }

  /** Partition.Prev on times. */
  function Prev(iv: Interval, t: Time, i: int): (r: Time) {
    var d := CivilDate(t);
    match iv
    case Daily => AddDate(t, 0, 0, -i)
    case Weekly => AddDate(t, 0, 0, -i * DAYS_IN_WEEK)
    case Monthly => GoDate(d.year, d.month - i, 1)
    case Quarterly => AddDate(t, 0, -i * MONTHS_IN_QUARTER, 0)
    case Yearly => GoDate(d.year - i, 1, 1)
  }

  /** The steps that overflow: from 31 March or 31 December into June or September. */
  predicate Overflows(iv: Interval, t: Time, i: int) {
    var d := CivilDate(t);
    iv.Quarterly? && d.day == 31 && (d.month == 3 || d.month == 12)
    && var m := (d.month + 3 * i) % 12; m == 6 || m == 9
  }

  /** Stepping i intervals moves the number by i, except that the raw day of the month carries an
      overflowing quarterly step into the quarter after. */
  lemma StepByIndex(iv: Interval, t: Time, i: int)
    requires ValidTime(t) && Index(iv, t.jdn) + i >= FirstIndex(iv)
    ensures ValidTime(Next(iv, t, i))
    ensures Index(iv, Next(iv, t, i).jdn) == Index(iv, t.jdn) + i + (if Overflows(iv, t, i) then 1 else 0)
    ensures Prev(iv, t, -i) == Next(iv, t, i)
    ensures Weekday(Next(iv, t, i)) == Weekday(t) || !iv.Weekly?
  {
    hide Index, Next, Prev, CivilDate, FirstIndex, ValidTime, Weekday;
    match iv
    case Daily => DayStep(t, i);
    case Weekly => WeekStep(t, i);
    case Monthly => MonthlyStep(t, i);
    case Quarterly => QuarterlyStep(t, i);
    case Yearly => YearlyStep(t, i);
  }

  lemma DayStep(t: Time, i: int)
    requires ValidTime(t) && Index(Daily, t.jdn) + i >= FirstIndex(Daily)
    ensures ValidTime(Next(Daily, t, i)) && Index(Daily, Next(Daily, t, i).jdn) == Index(Daily, t.jdn) + i
    ensures Prev(Daily, t, -i) == Next(Daily, t, i)
  {
    hide AddDate, CivilDate;
    AddDays(t, i);
  }

  lemma WeekStep(t: Time, i: int)
    requires ValidTime(t) && Index(Weekly, t.jdn) + i >= FirstIndex(Weekly)
    ensures ValidTime(Next(Weekly, t, i)) && Index(Weekly, Next(Weekly, t, i).jdn) == Index(Weekly, t.jdn) + i
    ensures Prev(Weekly, t, -i) == Next(Weekly, t, i)
    ensures Weekday(Next(Weekly, t, i)) == Weekday(t)
  {
    hide AddDate, CivilDate;
    AddDays(t, i * 7);
    AddDays(t, -(-i) * 7);
    WeeksOn(t.jdn, i);
    WeeksOn(t.jdn + 1, i);
  }

  lemma WeeksOn(x: int, i: int)
    ensures (x + i * 7) / 7 == x / 7 + i && (x + i * 7) % 7 == x % 7 && x + i * 7 >= 7 * (x / 7 + i)
  {
    RingIndex.DivModIs(x + i * 7, 7, x / 7 + i, x % 7);
  }

  lemma MonthlyStep(t: Time, i: int)
    requires ValidTime(t) && Index(Monthly, t.jdn) + i >= FirstIndex(Monthly)
    ensures ValidTime(Next(Monthly, t, i)) && Index(Monthly, Next(Monthly, t, i).jdn) == Index(Monthly, t.jdn) + i
    ensures Prev(Monthly, t, -i) == Next(Monthly, t, i)
  {
    hide MonthStart, DateToJulian, JulianToDate, ValidDate;
    IndexOfStart(Monthly, Index(Monthly, t.jdn) + i);
  }

  lemma QuarterlyStep(t: Time, i: int)
    requires ValidTime(t) && Index(Quarterly, t.jdn) + i >= FirstIndex(Quarterly)
    ensures ValidTime(Next(Quarterly, t, i))
    ensures Index(Quarterly, Next(Quarterly, t, i).jdn)
         == Index(Quarterly, t.jdn) + i + (if Overflows(Quarterly, t, i) then 1 else 0)
    ensures Prev(Quarterly, t, -i) == Next(Quarterly, t, i)
  {
    hide Index, Overflows, AddDate, CivilDate;
    QuarterStep(t, i);
    KeepsClock(t, i * 3);
  }

  lemma KeepsClock(t: Time, months: int)
    ensures AddDate(t, 0, months, 0).ns == t.ns
  {
    hide CivilDate, MonthStart;
  }

  lemma YearlyStep(t: Time, i: int)
    requires ValidTime(t) && Index(Yearly, t.jdn) + i >= FirstIndex(Yearly)
    ensures ValidTime(Next(Yearly, t, i)) && Index(Yearly, Next(Yearly, t, i).jdn) == Index(Yearly, t.jdn) + i
    ensures Prev(Yearly, t, -i) == Next(Yearly, t, i)
  {
    hide MonthStart, DateToJulian, JulianToDate, ValidDate;
    IndexOfStart(Yearly, Index(Yearly, t.jdn) + i);
  }

  lemma QuarterStep(t: Time, i: int)
    requires ValidTime(t) && Index(Quarterly, t.jdn) + i >= 4
    ensures var r := AddDate(t, 0, i * 3, 0);
            r.jdn >= YEAR_ONE
            && Index(Quarterly, r.jdn)
               == Index(Quarterly, t.jdn) + i + (if Overflows(Quarterly, t, i) then 1 else 0)
  {
    hide MonthStart, DateToJulian, JulianToDate;
    var d := CivilDate(t);
    var m := MonthIndex(d) + 3 * i;
    assert Index(Quarterly, t.jdn) + i == m / 3;
    DayInQuarter(m, d.day);
    LastMonthOverflow(d, i);
  }

  /** Where day number `day` of month m falls: in the quarter of m, or, past the end of a
      quarter's last month, in the next. */
  lemma DayInQuarter(m: int, day: int)
    requires m >= 12 && 1 <= day <= 31
    ensures var jdn := MonthStart(m) + day - 1;
            jdn >= YEAR_ONE
            && Index(Quarterly, jdn) == m / 3 + (if day > MonthLength(m) && m % 3 == 2 then 1 else 0)
  {
    hide MonthStart, Index;
    var jdn, q := MonthStart(m) + day - 1, m / 3;
    FirstStart(Monthly, m);
    MonthsAtOrBefore(3 * q, m);
    MonthStep(m);
    MonthStep(m + 1);
    if day > MonthLength(m) && m % 3 == 2 {
      assert m + 1 == 3 * (q + 1);
      MonthsAtOrBefore(m + 2, 3 * (q + 2));
      IndexUnique(Quarterly, jdn, q + 1);
    } else {
      MonthsAtOrBefore(if day > MonthLength(m) then m + 2 else m + 1, 3 * (q + 1));
      IndexUnique(Quarterly, jdn, q);
    }
  }

  lemma LastMonthOverflow(d: Date, i: int)
    requires ValidDate(d)
    ensures var m := MonthIndex(d) + 3 * i;
            d.day > MonthLength(m) && m % 3 == 2
            <==> d.day == 31 && (d.month == 3 || d.month == 12)
                 && ((d.month + 3 * i) % 12 == 6 || (d.month + 3 * i) % 12 == 9)
  {
    var x := d.month - 1 + 3 * i;
    QuarterResidues(d.year, d.month - 1, i);
    assert MonthLength(12 * d.year + x) == 31
        <==> x % 12 != 1 && x % 12 != 3 && x % 12 != 5 && x % 12 != 8 && x % 12 != 10;
  }

  lemma QuarterResidues(y: int, c: int, i: int)
    ensures var x := c + 3 * i;
            (12 * y + x) % 12 == x % 12 && (12 * y + x) % 3 == x % 12 % 3 == c % 3
            && (x + 1) % 12 == (if x % 12 == 11 then 0 else x % 12 + 1)
  {
    var x := c + 3 * i;
    WholeYears(x, y);
    NextOfTwelve(x);
    Thirds(x);
    Thirds(12 * y + x);
    WholeThirds(c, i);
  }

  lemma WholeYears(x: int, y: int)
    ensures (12 * y + x) % 12 == x % 12
  {
    RingIndex.DivModIs(12 * y + x, 12, y + x / 12, x % 12);
  }

  lemma NextOfTwelve(x: int)
    ensures (x + 1) % 12 == (if x % 12 == 11 then 0 else x % 12 + 1)
  {
    if x % 12 == 11 {
      RingIndex.DivModIs(x + 1, 12, x / 12 + 1, 0);
    } else {
      RingIndex.DivModIs(x + 1, 12, x / 12, x % 12 + 1);
    }
  }

  lemma WholeThirds(c: int, i: int)
    ensures (c + 3 * i) % 3 == c % 3
  {
    RingIndex.DivModIs(c + 3 * i, 3, c / 3 + i, c % 3);
  }

  lemma Thirds(x: int)
    ensures x % 12 % 3 == x % 3
  {
    var r := x % 12;
    RingIndex.DivModIs(x, 3, 4 * (x / 12) + r / 3, r % 3);
  }
}
