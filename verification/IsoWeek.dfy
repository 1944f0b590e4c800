/**
 ISO 8601 weeks (internal/isoweek/isoweek.go) on top of Julian day numbers. The reference is
 the definition of section 2.2.10 of ISO 8601:2004: weeks start on Monday, and a week belongs
 to the year that holds its Thursday.
 */
module IsoWeek {
  import opened GoInt
  import opened Julian

  function ISOWeekday(year: int, month: int, day: int): (weekday: int) {
    Rem(DateToJulian(year, month, day), 7) + 1
  }

  function StartOffset(year: int, week: int): (offset: int) {
    var y := year - 1;
    week * 7 - Rem(y + Quo(y, 4) - Quo(y, 100) + Quo(y, 400) + 3, 7) - 4
  }

  function StartDate(wyear: int, week: int): (d: Date) {
    JulianToDate(DateToJulian(wyear, 1, 1) + StartOffset(wyear, week))
  }

  function OrdinalInYear(year: int, month: int, day: int): (dayNo: int) {
    DateToJulian(year, month, day) - DateToJulian(year, 1, 1) + 1
  }

  /** The week number before the two corrections at the ends of the year. */
  function RawWeek(year: int, month: int, day: int): int {
    Quo(OrdinalInYear(year, month, day) - ISOWeekday(year, month, day) + 10, 7)
  }

  lemma LastDayIsDeep(year: int)
    ensures OrdinalInYear(year, 12, 31) >= 364
    ensures RawWeek(year, 12, 31) >= 52
  {
    var y := year + 4800;
    assert Quo(y, 4) >= Quo(y - 1, 4);
    assert Quo(y, 100) <= Quo(y - 1, 100) + 1;
    assert Quo(y, 400) >= Quo(y - 1, 400);
  }

  /** Total on all arguments: the recursion on 31 December stops at once. */
  function FromDate(year: int, month: int, day: int): (r: (int, int))
    ensures r.1 >= 1
    ensures RawWeek(year, month, day) < 1 ==> RawWeek(year - 1, 12, 31) >= 52
    decreases if RawWeek(year, month, day) < 1 then 1 else 0
  {
    var week := RawWeek(year, month, day);
    LastDayIsDeep(year - 1);
    if week < 1 then
      FromDate(year - 1, 12, 31)
    else if week == 53 && JulianOf(StartDate(year + 1, 1)) <= DateToJulian(year, month, day) then
      (year + 1, 1)
    else
      (year, week)
  }

  function Validate(wyear: int, week: int): (ok: bool) {
    if week < 1 || week > 53 then false
    else
      var d := StartDate(wyear, week);
      FromDate(d.year, d.month, d.day) == (wyear, week)
  }

  // ---- The definition of ISO 8601 -----------------------------------------------------------

  /** Monday and Thursday of the week of day jdn; day number 0 is a Monday. */
  function MondayOf(jdn: int): int {
    jdn - jdn % 7
  }

  function ThursdayOf(jdn: int): int {
    MondayOf(jdn) + 3
  }

  function NewYear(year: int): int {
    DateToJulian(year, 1, 1)
  }

  function WeekYear(jdn: int): int {
    JulianToDate(ThursdayOf(jdn)).year
  }

  function WeekNumber(jdn: int): int {
    (ThursdayOf(jdn) - NewYear(WeekYear(jdn))) / 7 + 1
  }

  /** A year has 53 weeks exactly when it starts or ends on a Thursday. */
  predicate LongYear(year: int) {
    ISOWeekday(year, 1, 1) == 4 || ISOWeekday(year, 12, 31) == 4
  }

  function WeeksIn(year: int): int {
    if LongYear(year) then 53 else 52
  }

  // ---- Years on the day axis ------------------------------------------------------------------

  lemma NewYearByMarch(year: int)
    requires year >= -4798
    ensures NewYear(year) == YearDays(year + 4799) - 31738
    ensures NewYear(year + 1) == NewYear(year) + (if IsLeap(year) then 366 else 365)
  {
    JulianByMarch(Date(year, 1, 1));
    JulianByMarch(Date(year + 1, 1, 1));
    LeapStep(year + 4799);
    LeapShift(year);
  }

  lemma {:induction false} NewYearsInOrder(a: int, b: int)
    requires -4798 <= a < b
    ensures NewYear(a) + 365 <= NewYear(b)
    decreases b - a
  {
    NewYearByMarch(a);
    if a + 1 < b {
      NewYearsInOrder(a + 1, b);
    }
  }

  lemma DecemberEnd(year: int)
    requires year >= -4798
    ensures DateToJulian(year, 12, 31) == NewYear(year + 1) - 1
  {
    NextDayIsOneMore(Date(year, 12, 31));
  }

  /** A date lies between the first days of its year and of the next. */
  lemma WithinYear(d: Date)
    requires ValidDate(d) && d.year >= -4798
    ensures NewYear(d.year) <= JulianOf(d) < NewYear(d.year + 1)
  {
    Monotone(d, Date(d.year, 1, 1));
    Monotone(d, Date(d.year + 1, 1, 1));
  }

  lemma YearOfDay(jdn: int, year: int)
    requires year >= -4715 && jdn >= FIRST_DAY
    ensures NewYear(year) <= jdn < NewYear(year + 1) <==> JulianToDate(jdn).year == year
  {
    DayRoundTrip(jdn);
    var d := JulianToDate(jdn);
    WithinYear(d);
    if d.year < year {
      AtOrAfter(d.year + 1, year);
    } else if d.year > year {
      AtOrAfter(year + 1, d.year);
    }
  }

  lemma AtOrAfter(a: int, b: int)
    requires -4798 <= a <= b
    ensures NewYear(a) <= NewYear(b)
  {
    if a < b {
      NewYearsInOrder(a, b);
    }
  }

  lemma ZeroYear()
    ensures NewYear(-4712) == 38 && NewYear(0) == 1721060 && NewYear(1) == 1721426
  {}

  // ---- The start of a week -----------------------------------------------------------------------

  /** The optimised offset equals the plain form in its comment for every year from 1 on. Before
      that, as far back as year -4712, its truncating divisions agree only after a leap year when
      4 January is a Monday. */
  lemma OffsetIsPlainForm(year: int, week: int)
    requires year >= -4712
    ensures StartOffset(year, week) == week * 7 - ISOWeekday(year, 1, 4) - 3
       <==> year >= 1 || (IsLeap(year - 1) && ISOWeekday(year, 1, 4) == 1)
  {
    hide DateToJulian, StartOffset, ISOWeekday;
    WeekdayOfFourth(year);
    if year < 1 {
      TruncatedOffset(year, week);
    } else {
      EuclideanOffset(year, week);
    }
  }

  /** Days of the week count from the years and the leap days among them. */
  function Sakamoto(y: int): int {
    y + y / 4 - y / 100 + y / 400
  }

  lemma WeekdayOfFourth(year: int)
    requires year >= -4712
    ensures ISOWeekday(year, 1, 4) == (Sakamoto(year - 1) + 3) % 7 + 1
  {
    hide DateToJulian, IsLeap;
    var y := year - 1;
    NewYearByMarch(year);
    FourthOfJanuary(year);
    YearDaysFrom(y);
    LeapCountsModulo(y);
  }

  lemma EuclideanOffset(year: int, week: int)
    requires year >= 1
    ensures StartOffset(year, week) == week * 7 - (Sakamoto(year - 1) + 3) % 7 - 4
  {}

  lemma TruncatedOffset(year: int, week: int)
    requires year < 1
    ensures StartOffset(year, week) == week * 7 - (Sakamoto(year - 1) + 3) % 7 - 4
       <==> IsLeap(year - 1) && (Sakamoto(year - 1) + 3) % 7 == 0
  {
    hide Rem, IsLeap;
    var y := year - 1;
    TruncatedSum(y);
    TruncatedWeekday(y, Sakamoto(y));
  }

  lemma TruncatedWeekday(y: int, s: int)
    requires y < 0 && s <= y && (IsLeap(y) ==> y <= -4)
    ensures Rem((if IsLeap(y) then s else s + 1) + 3, 7) == (s + 3) % 7 <==> IsLeap(y) && (s + 3) % 7 == 0
  {
    if !IsLeap(y) && s + 4 >= 0 {
      assert (s + 4) % 7 != (s + 3) % 7;
    }
  }

  lemma YearDaysFrom(y: int)
    ensures YearDays(y + 4800) == 365 * y + y / 4 - y / 100 + y / 400 + YearDays(4800)
    ensures YearDays(4800) == 1753164
  {
    assert (y + 4800) / 4 == y / 4 + 1200;
    assert (y + 4800) / 100 == y / 100 + 48;
    assert (y + 4800) / 400 == y / 400 + 12;
  }

  lemma LeapCountsModulo(y: int)
    ensures var s := y + y / 4 - y / 100 + y / 400;
            (364 * y + s + 1721429) % 7 == (s + 3) % 7
  {
    WholeWeeks(y + y / 4 - y / 100 + y / 400 + 3, 52 * y + 245918);
  }

  lemma WholeWeeks(x: int, k: int)
    ensures (7 * k + x) % 7 == x % 7
  {}

  lemma FourthOfJanuary(year: int)
    requires year >= -4712
    ensures DateToJulian(year, 1, 4) == NewYear(year) + 3 >= 0
  {
    ZeroYear();
    AtOrAfter(-4712, year);
  }

  lemma TruncatedSum(y: int)
    requires y < 0
    ensures Quo(y, 4) == if y % 4 == 0 then y / 4 else y / 4 + 1
    ensures Quo(y, 100) == if y % 100 == 0 then y / 100 else y / 100 + 1
    ensures Quo(y, 400) == if y % 400 == 0 then y / 400 else y / 400 + 1
    ensures y % 400 == 0 ==> y % 100 == 0
    ensures y % 100 == 0 ==> y % 4 == 0
    ensures y + y / 4 - y / 100 + y / 400 <= y && (IsLeap(y) ==> y <= -4)
    ensures y + Quo(y, 4) - Quo(y, 100) + Quo(y, 400)
         == (if IsLeap(y) then 0 else 1) + y + y / 4 - y / 100 + y / 400
  {}

  /** StartDate is the Monday week - 1 weeks after the week that holds 4 January. */
  lemma StartDateIsMonday(wyear: int, week: int)
    requires wyear >= 1
    requires MondayOf(NewYear(wyear) + 3) + 7 * (week - 1) >= FIRST_DAY
    ensures ValidDate(StartDate(wyear, week))
    ensures JulianOf(StartDate(wyear, week)) == MondayOf(NewYear(wyear) + 3) + 7 * (week - 1)
    ensures StartDate(wyear, week) == JulianToDate(MondayOf(NewYear(wyear) + 3) + 7 * (week - 1))
  {
    hide DateToJulian, JulianToDate, StartOffset, IsLeap;
    OffsetIsPlainForm(wyear, week);
    FourthOfJanuary(wyear);
    DayRoundTrip(NewYear(wyear) + StartOffset(wyear, week));
  }

  // ---- The week of a date ----------------------------------------------------------------------------

  lemma RawWeekByThursday(d: Date)
    requires ValidDate(d) && d.year >= 0
    ensures RawWeek(d.year, d.month, d.day) == (ThursdayOf(JulianOf(d)) - NewYear(d.year) + 7) / 7
    ensures JulianOf(d) >= NewYear(d.year) >= 1721060
  {
    WithinYear(d);
    ZeroYear();
    AtOrAfter(0, d.year);
  }

  /** The last days of a year belong to week 1 of the next when their Thursday does. */
  lemma NextYearTest(year: int, jdn: int)
    requires year >= 0 && NewYear(year) <= jdn < NewYear(year + 1)
    ensures JulianOf(StartDate(year + 1, 1)) <= jdn <==> ThursdayOf(jdn) >= NewYear(year + 1)
  {
    hide DateToJulian, JulianToDate;
    ZeroYear();
    AtOrAfter(0, year);
    AtOrAfter(1, year + 1);
    StartDateIsMonday(year + 1, 1);
    MondayTest(jdn, NewYear(year + 1));
  }

  lemma MondayTest(jdn: int, ny: int)
    requires 0 <= jdn < ny
    ensures MondayOf(ny + 3) <= jdn <==> ThursdayOf(jdn) >= ny
  {
    var a, b := jdn / 7, (ny + 3) / 7;
    assert MondayOf(jdn) == 7 * a && MondayOf(ny + 3) == 7 * b;
  }

  lemma FromDateNotEarly(d: Date)
    requires ValidDate(d) && d.year >= 0
    requires ThursdayOf(JulianOf(d)) >= NewYear(d.year)
    ensures FromDate(d.year, d.month, d.day) == (WeekYear(JulianOf(d)), WeekNumber(JulianOf(d)))
  {
    hide DateToJulian, JulianToDate, RawWeek, StartDate;
    var jdn, thu := JulianOf(d), ThursdayOf(JulianOf(d));
    RawWeekByThursday(d);
    WithinYear(d);
    NewYearByMarch(d.year);
    NewYearByMarch(d.year + 1);
    NextYearTest(d.year, jdn);
    YearOfDay(thu, d.year);
    YearOfDay(thu, d.year + 1);
  }

  /** FromDate computes the ISO week of every date from year 1 on. */
  lemma FromDateIsISO(d: Date)
    requires ValidDate(d) && d.year >= 1
    ensures FromDate(d.year, d.month, d.day) == (WeekYear(JulianOf(d)), WeekNumber(JulianOf(d)))
  {
    hide DateToJulian, JulianToDate, WeekYear, WeekNumber, RawWeek, StartDate;
    RawWeekByThursday(d);
    var jdn, ny := JulianOf(d), NewYear(d.year);
    if ThursdayOf(jdn) < ny {
      var last := Date(d.year - 1, 12, 31);
      DecemberEnd(d.year - 1);
      SameWeek(jdn, ny - 1);
      WeekByMonday(jdn, ny - 1);
      NewYearByMarch(d.year - 1);
      FromDateNotEarly(last);
      assert RawWeek(d.year, d.month, d.day) < 1;
    } else {
      FromDateNotEarly(d);
    }
  }

  lemma SameWeek(jdn: int, other: int)
    requires 0 <= other < jdn && ThursdayOf(jdn) <= other
    ensures MondayOf(jdn) == MondayOf(other)
  {
    assert jdn / 7 == other / 7;
  }

  lemma WeekByMonday(a: int, b: int)
    requires MondayOf(a) == MondayOf(b)
    ensures WeekYear(a) == WeekYear(b) && WeekNumber(a) == WeekNumber(b)
  {
    hide JulianToDate, DateToJulian;
  }

  // ---- Weeks of a year -----------------------------------------------------------------------------------

  /** The first Monday of a week-year, as the definition has it. */
  lemma WeekYearBounds(jdn: int)
    requires jdn >= 1721426
    ensures WeekYear(jdn) >= 1
    ensures var y := WeekYear(jdn);
            MondayOf(NewYear(y) + 3) <= jdn < MondayOf(NewYear(y + 1) + 3)
            && WeekNumber(jdn) == (jdn - MondayOf(NewYear(y) + 3)) / 7 + 1
  {
    hide DateToJulian, JulianToDate;
    var thu := ThursdayOf(jdn);
    ZeroYear();
    assert thu >= 1721426;
    DayRoundTrip(thu);
    var y := WeekYear(jdn);
    WithinYear(JulianToDate(thu));
    if y < 1 {
      AtOrAfter(y + 1, 1);
    }
    AtOrAfter(1, y);
    ThursdayWindow(jdn, NewYear(y), NewYear(y + 1));
  }

  lemma ThursdayWindow(jdn: int, a: int, b: int)
    requires 0 <= a < b && jdn >= 0 && a <= ThursdayOf(jdn) < b
    ensures MondayOf(a + 3) <= jdn < MondayOf(b + 3)
    ensures (ThursdayOf(jdn) - a) / 7 == (jdn - MondayOf(a + 3)) / 7
  {
    var k, p, q := jdn / 7, (a + 3) / 7, (b + 3) / 7;
    assert MondayOf(jdn) == 7 * k && MondayOf(a + 3) == 7 * p && MondayOf(b + 3) == 7 * q;
    assert (7 * k + 3 - a) / 7 == k - p;
  }

  /** The weeks of a year fill the span from its first Monday to the next year's. */
  lemma WeeksFill(year: int)
    requires year >= 1
    ensures MondayOf(NewYear(year + 1) + 3) == MondayOf(NewYear(year) + 3) + 7 * WeeksIn(year)
  {
    NewYearByMarch(year);
    DecemberEnd(year);
    ZeroYear();
    AtOrAfter(1, year);
    var ny := NewYear(year);
    var len := NewYear(year + 1) - ny;
    assert LongYear(year) <==> ny % 7 == 3 || (ny + len - 1) % 7 == 3;
    FillCount(ny, len);
  }

  lemma FillCount(ny: int, len: int)
    requires ny >= 0 && 365 <= len <= 366
    ensures MondayOf(ny + len + 3) - MondayOf(ny + 3)
         == if ny % 7 == 3 || (ny + len - 1) % 7 == 3 then 371 else 364
  {
    var p, s := ny / 7, ny % 7;
    assert ny == 7 * p + s;
    WholeWeeks(s + 3, p);
    WholeWeeks(s + len + 3, p);
    WholeWeeks(s + len - 1, p);
    FillTable(s, len);
  }

  lemma FillTable(s: int, len: int)
    requires 0 <= s < 7 && 365 <= len <= 366
    ensures len - (s + len + 3) % 7 + (s + 3) % 7 == if s == 3 || (s + len - 1) % 7 == 3 then 371 else 364
  {}

  /** FromDate undoes StartDate exactly on the real weeks of a year, whatever the week number. */
  lemma WeekRoundTrip(wyear: int, week: int)
    requires wyear >= 1
    ensures var d := StartDate(wyear, week);
            FromDate(d.year, d.month, d.day) == (wyear, week) <==> 1 <= week <= WeeksIn(wyear)
  {
    hide DateToJulian, JulianToDate, ISOWeekday, LongYear, WeekNumber, WeekYear, MondayOf, NewYear, FromDate, StartDate,
         WeeksIn, ValidDate;
    if week >= 1 {
      FirstMondayLate(wyear);
      StartDateIsMonday(wyear, week);
      var d := StartDate(wyear, week);
      var jdn := JulianOf(d);
      FirstMonday(jdn, wyear);
      FromDateIsISO(d);
      WeekYearBounds(jdn);
      WeeksFill(wyear);
      if WeekYear(jdn) != wyear && week <= WeeksIn(wyear) {
        OneWeekYear(jdn, WeekYear(jdn), wyear);
      }
    }
  }

  lemma FirstMondayLate(wyear: int)
    requires wyear >= 1
    ensures MondayOf(NewYear(wyear) + 3) >= 1721420
  {
    hide DateToJulian;
    ZeroYear();
    AtOrAfter(1, wyear);
  }

  lemma FirstMonday(jdn: int, wyear: int)
    requires wyear >= 1 && jdn >= MondayOf(NewYear(wyear) + 3)
    ensures jdn >= 1721426 && JulianToDate(jdn).year >= 1
  {
    hide DateToJulian, JulianToDate;
    ZeroYear();
    AtOrAfter(1, wyear);
    DayRoundTrip(jdn);
    var y := JulianToDate(jdn).year;
    WithinYear(JulianToDate(jdn));
    if y < 1 {
      AtOrAfter(y + 1, 1);
    }
  }

  /** Only one year's weeks hold a given day. */
  lemma OneWeekYear(jdn: int, a: int, b: int)
    requires a >= 1 && b >= 1
    requires MondayOf(NewYear(a) + 3) <= jdn < MondayOf(NewYear(a + 1) + 3)
    requires MondayOf(NewYear(b) + 3) <= jdn < MondayOf(NewYear(b + 1) + 3)
    ensures a == b
  {
    hide DateToJulian, JulianToDate;
    if a < b {
      AtOrAfter(a + 1, b);
    } else if b < a {
      AtOrAfter(b + 1, a);
    }
  }

  /** Validate accepts weeks 1 to 52 of every year, week 53 of the long years, and no other. */
  lemma ValidateAccepts(wyear: int, week: int)
    requires wyear >= 1
    ensures Validate(wyear, week) <==> 1 <= week <= WeeksIn(wyear)
  {
    hide FromDate, StartDate, LongYear;
    WeekRoundTrip(wyear, week);
  }

  /** The Monday of the computed week is on or before the date and less than a week before it. */
  lemma WeekHoldsDate(d: Date)
    requires ValidDate(d) && d.year >= 1
    ensures var (wyear, week) := FromDate(d.year, d.month, d.day);
            wyear >= 1 && 1 <= week <= WeeksIn(wyear)
            && JulianOf(StartDate(wyear, week)) == MondayOf(JulianOf(d))
  {
    hide DateToJulian, JulianToDate, WeekNumber, WeekYear, MondayOf, NewYear, FromDate, StartDate, WeeksIn, ValidDate;
    var jdn := JulianOf(d);
    ZeroYear();
    AtOrAfter(1, d.year);
    WithinYear(d);
    FromDateIsISO(d);
    WeekYearBounds(jdn);
    var wyear, week := WeekYear(jdn), WeekNumber(jdn);
    AtOrAfter(1, wyear);
    WeeksFill(wyear);
    FirstMondayLate(wyear);
    StartDateIsMonday(wyear, week);
    WeekSteps(jdn, NewYear(wyear) + 3);
  }

  lemma WeekSteps(jdn: int, x: int)
    requires 0 <= x && MondayOf(x) <= jdn
    ensures MondayOf(x) + 7 * ((jdn - MondayOf(x)) / 7) == MondayOf(jdn)
  {
    assert MondayOf(x) == 7 * (x / 7) && MondayOf(jdn) == 7 * (jdn / 7);
  }
}
