/**
 UTC times as Go's time package has them: a day and a nanosecond of that day. Days carry their
 Julian day number; CivilDate and the normalising constructors give them their dates.
 */
module CivilTime {
  import opened Julian
  import IsoWeek

  const DAY_NS := 86_400_000_000_000

  // 1 January of year 1, a Monday.
  const YEAR_ONE := 1721426

  datatype Time = Time(jdn: int, ns: int)

  predicate ValidTime(t: Time) {
    YEAR_ONE <= t.jdn && 0 <= t.ns < DAY_NS
  }

  predicate AtOrBefore(a: Time, b: Time) {
    a.jdn < b.jdn || (a.jdn == b.jdn && a.ns <= b.ns)
  }

  predicate StrictlyBefore(a: Time, b: Time) {
    a.jdn < b.jdn || (a.jdn == b.jdn && a.ns < b.ns)
  }

  /** Nanoseconds since the first instant of day 0. */
  function Instant(t: Time): int {
    t.jdn * DAY_NS + t.ns
  }

  /** Times are ordered as their instants are. */
  lemma OrderIsOfInstants(a: Time, b: Time)
    requires 0 <= a.ns < DAY_NS && 0 <= b.ns < DAY_NS
    ensures StrictlyBefore(a, b) <==> Instant(a) < Instant(b)
    ensures AtOrBefore(a, b) <==> Instant(a) <= Instant(b)
  {}

  /** t.Date(): the one valid date with the day's number. */
  function CivilDate(t: Time): (d: Date)
    ensures t.jdn >= FIRST_DAY ==> ValidDate(d) && d.year >= -4716 && JulianOf(d) == t.jdn
  {
    if t.jdn >= FIRST_DAY then DayRoundTrip(t.jdn); JulianToDate(t.jdn) else JulianToDate(t.jdn)
  }

  /** time.Date at midnight: months overflow into years, then days into months. */
  function GoDate(year: int, month: int, day: int): (t: Time) {
    Time(MonthStart(12 * year + month - 1) + day - 1, 0)
  }

  /** t.AddDate: the same normalisation, keeping the clock. */
  function AddDate(t: Time, years: int, months: int, days: int): (r: Time) {
    var d := CivilDate(t);
    GoDate(d.year + years, d.month + months, d.day + days).(ns := t.ns)
  }

  /** t.Weekday(), with Sunday 0. */
  function Weekday(t: Time): (w: int)
    ensures 0 <= w < 7
  {
    (t.jdn + 1) % 7
  }

  /** t.ISOWeek(), by the definition of ISO 8601. */
  function ISOWeek(t: Time): (r: (int, int)) {
    (IsoWeek.WeekYear(t.jdn), IsoWeek.WeekNumber(t.jdn))
  }

  /** time.Date of a valid date is that date. */
  lemma GoDateOfDate(d: Date)
    requires ValidDate(d)
    ensures GoDate(d.year, d.month, d.day).jdn == JulianOf(d)
  {
    hide MonthStart, DateToJulian, MonthLength;
    JulianByMonth(d);
  }

  /** Adding days moves along the day axis. */
  lemma AddDays(t: Time, days: int)
    requires t.jdn >= FIRST_DAY
    ensures AddDate(t, 0, 0, days) == Time(t.jdn + days, t.ns)
  {
    hide MonthStart, DateToJulian, JulianToDate, ValidDate, MonthLength;
    JulianByMonth(CivilDate(t));
  }

  lemma YearOneDates(d: Date)
    requires ValidDate(d) && d.year >= -4798
    ensures d.year >= 1 <==> JulianOf(d) >= YEAR_ONE
  {
    hide DateToJulian;
    IsoWeek.ZeroYear();
    Monotone(d, Date(1, 1, 1));
  }
}
