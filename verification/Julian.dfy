/**
 Julian day numbers (internal/isoweek/julian.go) against the Gregorian calendar:
 leap years every fourth year, except centuries that are not multiples of 400.
 */
module Julian {
  import opened GoInt

  datatype Date = Date(year: int, month: int, day: int)

  predicate IsLeap(year: int) {
    year % 4 == 0 && (year % 100 != 0 || year % 400 == 0)
  }

  function DaysIn(year: int, month: int): (n: int)
    requires 1 <= month <= 12
  {
    if month == 2 then (if IsLeap(year) then 29 else 28)
    else if month == 4 || month == 6 || month == 9 || month == 11 then 30
    else 31
  }

  predicate ValidDate(d: Date) {
    1 <= d.month <= 12 && 1 <= d.day <= DaysIn(d.year, d.month)
  }

  /** The civil day after d. */
  function NextDay(d: Date): (r: Date)
    requires ValidDate(d)
    ensures ValidDate(r)
  {
    if d.day < DaysIn(d.year, d.month) then d.(day := d.day + 1)
    else if d.month < 12 then Date(d.year, d.month + 1, 1)
    else Date(d.year + 1, 1, 1)
  }

  /** Calendar order. */
  predicate Before(a: Date, b: Date) {
    a.year < b.year ||
    (a.year == b.year && (a.month < b.month || (a.month == b.month && a.day < b.day)))
  }

  function DateToJulian(year: int, month: int, day: int): (jdn: int) {
    var y := (if month < 3 then year - 1 else year) + 4800;
    var m := if month < 3 then month + 12 else month;
    day + Quo(153 * (m - 3) + 2, 5) + 365 * y + Quo(y, 4) - Quo(y, 100) + Quo(y, 400) - 32045
  }

  function JulianOf(d: Date): (jdn: int) {
    DateToJulian(d.year, d.month, d.day)
  }

  function JulianToDate(jdn: int): (d: Date) {
    var e := 4 * (jdn + 1401 + Quo(Quo(4 * jdn + 274277, 146097) * 3, 4) - 38) + 3;
    var h := Quo(Rem(e, 1461), 4) * 5 + 2;
    var day := Quo(Rem(h, 153), 5) + 1;
    var month := Rem(Quo(h, 153) + 2, 12) + 1;
    var year := Quo(e, 1461) - 4716 + Quo(14 - month, 12);
    Date(year, month, day)
  }

  // The first day the closed form inverts: 1 March 4717 BC (astronomical year -4716).
  const FIRST_DAY := -1363

  // ---- A date as a day of a year that starts in March ---------------------------------

  /** Years since March -4800, and days since 1 March. */
  function MarchYear(d: Date): int {
    (if d.month < 3 then d.year - 1 else d.year) + 4800
  }

  function MarchDay(d: Date): int
    requires ValidDate(d)
  {
    MonthOffset(if d.month < 3 then d.month + 9 else d.month - 3) + d.day - 1
  }

  /** Days before the m-th month after March. */
  function MonthOffset(m: int): int {
    (153 * m + 2) / 5
  }

  lemma OffsetTable(m: int)
    requires 0 <= m < 12
    ensures MonthOffset(m) == [0, 31, 61, 92, 122, 153, 184, 214, 245, 275, 306, 337][m]
  {}

  lemma MarchDayBounds(d: Date)
    requires ValidDate(d)
    ensures 0 <= MarchDay(d) <= 365
    ensures MarchDay(d) == 365 ==> IsLeap(MarchYear(d) + 1)
  {}

  /** Months and days of a March year come back from the day of that year. */
  lemma MonthAndDay(d: Date)
    requires ValidDate(d)
    ensures var h := MarchDay(d) * 5 + 2;
            h % 153 / 5 + 1 == d.day && (h / 153 + 2) % 12 + 1 == d.month
  {
    var m := if d.month < 3 then d.month + 9 else d.month - 3;
    var h := MarchDay(d) * 5 + 2;
    var r := h - 153 * m;
    assert 0 <= r < 153 && r / 5 == d.day - 1;
    assert h / 153 == m && h % 153 == r;
  }

  /** The year and the day of the year come back from the corrected day count. */
  lemma YearAndDay(z: int, doy: int)
    requires 0 <= z && 0 <= doy <= 365 && (doy == 365 ==> z % 4 == 3)
    ensures var e := 4 * (365 * z + z / 4 + doy) + 3;
            e / 1461 == z && e % 1461 / 4 == doy
  {
    var e := 4 * (365 * z + z / 4 + doy) + 3;
    assert e == 1461 * z + (3 - z % 4 + 4 * doy);
  }

  /** Days from 1 March -4800 to the start of March year y: the Gregorian leap count. */
  function YearDays(y: int): int {
    365 * y + y / 4 - y / 100 + y / 400
  }

  lemma JulianByMarch(d: Date)
    requires ValidDate(d) && d.year >= -4799
    ensures JulianOf(d) == YearDays(MarchYear(d)) + MarchDay(d) - 32044
  {}

  /** The century correction: 3/4 of the shifted century count is the centuries less the
      leap centuries, on every day of a March year. */
  lemma CenturyCorrection(jdn: int, y: int, doy: int)
    requires 0 <= y && 0 <= doy <= 365 && (doy == 365 ==> IsLeap(y + 1))
    requires jdn == YearDays(y) + doy - 32044
    ensures (4 * jdn + 274277) / 146097 * 3 / 4 == y / 100 - y / 400
  {
    var q, b, r := y / 100, y / 100 % 4, y % 100;
    CenturyRest(jdn, y, doy);
    var rest := 4 - b + 1460 * r + 4 * (r / 4) + 4 * doy;
    if r == 99 && doy == 365 {
      LastOfCentury(y);
      DivideBy146097(q + 2, rest - 146097);
    } else {
      RestBelow(r, b, doy);
      DivideBy146097(q + 1, rest);
    }
    ThreeQuarters(q);
    YearParts(y);
  }

  lemma YearParts(y: int)
    ensures y / 4 == 25 * (y / 100) + y % 100 / 4 && y / 400 == y / 100 / 4
  {}

  lemma CenturyRest(jdn: int, y: int, doy: int)
    requires jdn == YearDays(y) + doy - 32044
    ensures var q, r := y / 100, y % 100;
            4 * jdn + 274277 == 146097 * (q + 1) + (4 - q % 4 + 1460 * r + 4 * (r / 4) + 4 * doy)
  {
    YearParts(y);
    var q, r, p, a := y / 100, y % 100, y % 100 / 4, y / 100 / 4;
    assert y == 100 * q + r && q == 4 * a + q % 4;
    assert jdn == 365 * (100 * q + r) + (25 * q + p) - q + a + doy - 32044;
  }

  lemma RestBelow(r: int, b: int, doy: int)
    requires 0 <= r < 100 && 0 <= b < 4 && 0 <= doy <= 365 && !(r == 99 && doy == 365)
    ensures 0 <= 4 - b + 1460 * r + 4 * (r / 4) + 4 * doy < 146097
  {
    assert r / 4 <= 24;
  }

  /** The leap day that ends a century ends four of them. */
  lemma LastOfCentury(y: int)
    requires y % 100 == 99 && IsLeap(y + 1)
    ensures y / 100 % 4 == 3 && y % 100 / 4 == 24
  {
    var q := y / 100;
    assert y + 1 == 100 * (q + 1);
  }

  lemma DivideBy146097(k: int, rest: int)
    requires 0 <= rest < 146097
    ensures (146097 * k + rest) / 146097 == k
  {}

  lemma ThreeQuarters(q: int)
    ensures (q + 1) * 3 / 4 == q - q / 4
    ensures q % 4 == 3 ==> (q + 2) * 3 / 4 == q - q / 4
  {
    var a, b := q / 4, q % 4;
    assert q == 4 * a + b;
    assert (q + 1) * 3 == 4 * (3 * a) + (3 * b + 3);
  }

  /** JulianToDate written with the intermediate results of its first and second half. */
  lemma SplitInverse(jdn: int, z: int, doy: int)
    requires jdn >= FIRST_DAY && 0 <= z && 0 <= doy <= 365 && (doy == 365 ==> z % 4 == 3)
    requires jdn + 1363 + (4 * jdn + 274277) / 146097 * 3 / 4 == 365 * z + z / 4 + doy
    ensures var h := 5 * doy + 2;
            var month := (h / 153 + 2) % 12 + 1;
            JulianToDate(jdn) == Date(z - 4716 + (14 - month) / 12, month, h % 153 / 5 + 1)
  {
    var e := 4 * (jdn + 1401 + (4 * jdn + 274277) / 146097 * 3 / 4 - 38) + 3;
    YearAndDay(z, doy);
    assert e == 4 * (365 * z + z / 4 + doy) + 3;
  }

  /** The inverse on a day given by its March year and the day of that year. */
  lemma InverseByMarch(jdn: int, y: int, doy: int)
    requires y >= 84 && 0 <= doy <= 365 && (doy == 365 ==> IsLeap(y + 1))
    requires jdn == YearDays(y) + doy - 32044
    ensures var h := 5 * doy + 2;
            var month := (h / 153 + 2) % 12 + 1;
            JulianToDate(jdn) == Date(y - 4800 + (14 - month) / 12, month, h % 153 / 5 + 1)
  {
    hide JulianToDate;
    CenturyCorrection(jdn, y, doy);
    ShiftedYear(y);
    YearDaysGrow(y);
    SplitInverse(jdn, y - 84, doy);
  }

  lemma ShiftedYear(y: int)
    ensures y / 4 == (y - 84) / 4 + 21
    ensures IsLeap(y + 1) ==> (y - 84) % 4 == 3
  {}

  lemma YearDaysGrow(y: int)
    requires y >= 84
    ensures YearDays(y) >= YearDays(84) == 30681
  {}

  lemma FromFirstDay(d: Date)
    requires ValidDate(d) && d.year >= -4716 && JulianOf(d) >= FIRST_DAY
    ensures MarchYear(d) >= 84
  {}

  /** Every valid date from FIRST_DAY on comes back unchanged. */
  lemma DateRoundTrip(d: Date)
    requires ValidDate(d) && d.year >= -4716 && JulianOf(d) >= FIRST_DAY
    ensures JulianToDate(JulianOf(d)) == d
  {
    hide JulianToDate, DateToJulian, YearDays;
    var jdn := JulianOf(d);
    JulianByMarch(d);
    MarchDayBounds(d);
    FromFirstDay(d);
    InverseByMarch(jdn, MarchYear(d), MarchDay(d));
    MonthAndDay(d);
  }

  lemma LeapStep(y: int)
    ensures YearDays(y + 1) == YearDays(y) + (if IsLeap(y + 1) then 366 else 365)
  {
    Carry4(y);
    Carry100(y);
    Carry100(y + 1);
    Carry400(y);
    Carry400(y + 1);
  }

  lemma Carry4(y: int)
    ensures (y + 1) / 4 == if (y + 1) % 4 == 0 then y / 4 + 1 else y / 4
  {}

  lemma Carry100(y: int)
    ensures (y + 1) / 100 == if (y + 1) % 100 == 0 then y / 100 + 1 else y / 100
    ensures y % 100 == 0 ==> y % 4 == 0
  {}

  lemma Carry400(y: int)
    ensures (y + 1) / 400 == if (y + 1) % 400 == 0 then y / 400 + 1 else y / 400
    ensures y % 400 == 0 ==> y % 100 == 0
  {}

  /** The day after a valid date has the next day number. */
  lemma NextDayIsOneMore(d: Date)
    requires ValidDate(d) && d.year >= -4799
    ensures JulianOf(NextDay(d)) == JulianOf(d) + 1
  {
    var n := NextDay(d);
    JulianByMarch(d);
    JulianByMarch(n);
    NextMarchDay(d);
    LeapStep(MarchYear(d));
  }

  /** The next day is the next day of the same March year, or the first of the next. */
  lemma NextMarchDay(d: Date)
    requires ValidDate(d)
    ensures var n := NextDay(d);
            if MarchYear(n) == MarchYear(d) then MarchDay(n) == MarchDay(d) + 1
            else (MarchYear(n) == MarchYear(d) + 1 && MarchDay(n) == 0
                  && MarchDay(d) == (if IsLeap(MarchYear(d) + 1) then 365 else 364))
  {
    if d.day < DaysIn(d.year, d.month) {
      SameMonth(d);
    } else if d.month == 2 {
      EndOfFebruary(d);
    } else {
      EndOfMonth(d);
    }
  }

  lemma SameMonth(d: Date)
    requires ValidDate(d) && d.day < DaysIn(d.year, d.month)
    ensures MarchYear(NextDay(d)) == MarchYear(d) && MarchDay(NextDay(d)) == MarchDay(d) + 1
  {
    hide MonthOffset;
  }

  lemma EndOfFebruary(d: Date)
    requires ValidDate(d) && d.month == 2 && d.day == DaysIn(d.year, 2)
    ensures MarchYear(NextDay(d)) == MarchYear(d) + 1 && MarchDay(NextDay(d)) == 0
    ensures MarchDay(d) == (if IsLeap(MarchYear(d) + 1) then 365 else 364)
  {
    LeapShift(d.year);
  }

  lemma LeapShift(year: int)
    ensures IsLeap(year + 4800) == IsLeap(year)
  {
    var q := year / 400;
    assert year + 4800 == 400 * (q + 12) + year % 400;
    assert (year + 4800) % 400 == year % 400;
    assert (year + 4800) % 100 == year % 100;
    assert (year + 4800) % 4 == year % 4;
  }

  lemma EndOfMonth(d: Date)
    requires ValidDate(d) && d.month != 2 && d.day == DaysIn(d.year, d.month)
    ensures MarchYear(NextDay(d)) == MarchYear(d) && MarchDay(NextDay(d)) == MarchDay(d) + 1
  {
    hide MonthOffset;
    var m := if d.month < 3 then d.month + 9 else d.month - 3;
    OffsetTable(m);
    OffsetTable(m + 1);
  }

  /** Every day number from FIRST_DAY on is the number of a valid date. */
  lemma {:induction false} DayHasDate(jdn: int) returns (d: Date)
    requires jdn >= FIRST_DAY
    ensures ValidDate(d) && d.year >= -4716 && JulianOf(d) == jdn
    decreases jdn - FIRST_DAY
  {
    if jdn == FIRST_DAY {
      d := Date(-4716, 3, 1);
    } else {
      d := DayHasDate(jdn - 1);
      NextDayIsOneMore(d);
      d := NextDay(d);
    }
  }

  /** Every day number from FIRST_DAY on comes back unchanged, through a valid date. */
  lemma DayRoundTrip(jdn: int)
    requires jdn >= FIRST_DAY
    ensures ValidDate(JulianToDate(jdn))
    ensures JulianToDate(jdn).year >= -4716
    ensures JulianOf(JulianToDate(jdn)) == jdn
  {
    var d := DayHasDate(jdn);
    DateRoundTrip(d);
  }

  /** All day numbers from n on come back exactly when n is not before FIRST_DAY. */
  lemma FirstDayIsSharp(n: int)
    ensures (forall jdn :: jdn >= n ==> JulianOf(JulianToDate(jdn)) == jdn) <==> n >= FIRST_DAY
  {
    hide DateToJulian, JulianToDate, ValidDate;
    if n >= FIRST_DAY {
      forall jdn | jdn >= n ensures JulianOf(JulianToDate(jdn)) == jdn {
        DayRoundTrip(jdn);
      }
    } else {
      DayBeforeFirst();
      DayRoundTrip(FIRST_DAY);
      assert JulianOf(JulianToDate(FIRST_DAY - 1)) == FIRST_DAY;
    }
  }

  /** One day earlier the truncating divisions round the wrong way. */
  lemma DayBeforeFirst()
    ensures JulianToDate(FIRST_DAY - 1) == Date(-4716, 3, 1) == JulianToDate(FIRST_DAY)
  {
    assert Quo(4 * (FIRST_DAY - 1) + 274277, 146097) == 1 == Quo(4 * FIRST_DAY + 274277, 146097);
    assert Quo(3, 4) == 0 && Quo(-1, 1461) == 0 && Rem(-1, 1461) == -1 && Quo(-1, 4) == 0;
    assert Quo(3, 1461) == 0 && Rem(3, 1461) == 3 && Quo(2, 153) == 0 && Rem(2, 153) == 2;
  }

  // ---- Months and calendar order --------------------------------------------------------

  /** The day number of the first day of month k, counting months from January of year 0. */
  function MonthStart(k: int): int {
    DateToJulian(k / 12, k % 12 + 1, 1)
  }

  function MonthIndex(d: Date): int {
    12 * d.year + d.month - 1
  }

  function MonthLength(k: int): (n: int)
    ensures 28 <= n <= 31
  {
    DaysIn(k / 12, k % 12 + 1)
  }

  lemma MonthStep(k: int)
    requires k >= 12 * -4799
    ensures MonthStart(k + 1) == MonthStart(k) + MonthLength(k)
  {
    var last := Date(k / 12, k % 12 + 1, MonthLength(k));
    assert JulianOf(last) == MonthStart(k) + MonthLength(k) - 1;
    NextDayIsOneMore(last);
    assert NextDay(last) == Date((k + 1) / 12, (k + 1) % 12 + 1, 1);
  }

  lemma {:induction false} MonthsInOrder(a: int, b: int)
    requires 12 * -4799 <= a < b
    ensures MonthStart(a) + MonthLength(a) <= MonthStart(b)
    decreases b - a
  {
    MonthStep(a);
    if a + 1 < b {
      MonthsInOrder(a + 1, b);
    }
  }

  lemma JulianByMonth(d: Date)
    requires ValidDate(d)
    ensures JulianOf(d) == MonthStart(MonthIndex(d)) + d.day - 1
    ensures MonthLength(MonthIndex(d)) == DaysIn(d.year, d.month)
  {
    assert MonthIndex(d) / 12 == d.year && MonthIndex(d) % 12 == d.month - 1;
  }

  /** Day numbers are in calendar order. */
  lemma Monotone(a: Date, b: Date)
    requires ValidDate(a) && ValidDate(b) && a.year >= -4799 && b.year >= -4799
    ensures Before(a, b) <==> JulianOf(a) < JulianOf(b)
  {
    hide MonthStart, DateToJulian, MonthLength, DaysIn;
    JulianByMonth(a);
    JulianByMonth(b);
    if MonthIndex(a) < MonthIndex(b) {
      MonthsInOrder(MonthIndex(a), MonthIndex(b));
    } else if MonthIndex(b) < MonthIndex(a) {
      MonthsInOrder(MonthIndex(b), MonthIndex(a));
    }
  }
}
