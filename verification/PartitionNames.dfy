/**
 Partition names and audio prefixes: how pkg/database/partman/partman_intervals.go prints them,
 and how pkg/database/partman/partman.go prefixes and reads them back.
 */
module PartitionNames {
  import opened Julian
  import opened CivilTime
  import opened Intervals
  import opened GoStrings
  import IsoWeek

  const CALLS_TABLE := "calls"

  datatype Partition = Partition(parent: string, schema: string, name: string, interval: Interval, time: Time)

  // A row of the catalogue query, with its bounds decoded.
  datatype PartitionResult =
    PartitionResult(parent: string, schema: string, name: string, lower: Time, upper: Time)

  datatype Error = BadBounds | BadName | BadNumber | StartMismatch | BadQuarter | WrongSchema | DifferentInterval
      | Database

  datatype Result<+T> = Ok(value: T) | Err(error: Error)

  // ---- Printing ---------------------------------------------------------------------------------

  /** %0wd; names of years before year 0 are not modelled beyond their sign. */
  function Number(n: int, w: nat): (s: string) {
    if n < 0 then "-" + Padded(-n, w) else Padded(n, w)
  }

  function FormatDay(d: Date): string {
    Number(d.year, 4) + "_" + Number(d.month, 2) + "_" + Number(d.day, 2)
  }

  function FormatMonth(d: Date): string {
    Number(d.year, 4) + "_" + Number(d.month, 2)
  }

  function Quarter(month: int): int {
    if 1 <= month <= 3 then 1
    else if 4 <= month <= 6 then 2
    else if 7 <= month <= 9 then 3
    else if 10 <= month <= 12 then 4
    else 0
  }

  /** The suffix setName prints. */
  function Suffix(iv: Interval, t: Time): (s: string) {
    var d := CivilDate(t);
    match iv
    case Daily => FormatDay(d)
    case Weekly =>
      var (year, week) := ISOWeek(t);
      Number(year, 0) + "_w" + Number(week, 2)
    case Monthly => FormatMonth(d)
    case Quarterly => Number(d.year, 0) + "_q" + Number(Quarter(d.month), 0)
    case Yearly => Number(d.year, 4)
  }

  function SetName(p: Partition): (r: Partition)
    ensures r == p.(name := r.name)
  {
    p.(name := p.parent + "_p_" + Suffix(p.interval, p.time))
  }

  function NewPartition(schema: string, iv: Interval, t: Time): (p: Partition) {
    SetName(Partition(CALLS_TABLE, schema, "", iv, t))
  }

  /** PartitionPrefix: the directory of a call's audio. */
  function PartitionPrefix(iv: Interval, t: Time): (s: string) {
    var lb := CivilDate(Bounds(iv, t).0);
    var d := CivilDate(t);
    match iv
    case Daily => FormatDay(lb)
    case Weekly =>
      var (year, week) := IsoWeek.FromDate(d.year, d.month, d.day);
      Number(year, 4) + "_w" + Number(week, 2)
    case Monthly => FormatMonth(lb)
    case Quarterly => Number(d.year, 4) + "_q" + Number((lb.month - 1) / MONTHS_IN_QUARTER + 1, 0)
    case Yearly => Number(lb.year, 4)
  }

  /** Prefix: the part of the name after "calls_p_". */
  function Prefix(p: Partition): (s: string)
    requires |Split(p.name, "calls_p_")| > 1
  {
    Split(p.name, "calls_p_")[1]
  }

  // ---- Reading -------------------------------------------------------------------------------------

  function CheckStart(p: Partition, parsed: Time): Result<Partition> {
    if parsed != p.time then Err(StartMismatch) else Ok(p)
  }

  function VerifyPartName(pr: PartitionResult): (r: Result<Partition>)
    ensures r.Ok? ==> r.value == Partition(pr.parent, pr.schema, pr.name, r.value.interval, pr.lower)
  {
    if StrictlyBefore(pr.upper, pr.lower) then Err(BadBounds)
    else
      var p := Partition(pr.parent, pr.schema, pr.name, Daily, pr.lower);
      var parts := Split(pr.name, "calls_p_");
      if |parts| != 2 then Err(BadName)
      else
        var date := Split(parts[1], "_");
        if |date| == 3 then
          match (Atoi(date[0]), Atoi(date[1]), Atoi(date[2]))
          case (Some(y), Some(m), Some(d)) => CheckStart(p, GoDate(y, m, d))
          case _ => Err(BadNumber)
        else if |date| == 2 then
          match Atoi(date[0])
          case None => Err(BadNumber)
          case Some(year) => VerifyTwo(p, year, date[1])
        else if |date| == 1 then
          match Atoi(date[0])
          case None => Err(BadNumber)
          case Some(year) => CheckStart(p.(interval := Yearly), GoDate(year, 1, 1))
        else Err(BadName)
  }

  function VerifyTwo(p: Partition, year: int, s: string): (r: Result<Partition>)
    ensures r.Ok? ==> r.value == p.(interval := r.value.interval)
  {
    if HasPrefix(s, "w") then
      match Atoi(s[1..])
      case None => Err(BadNumber)
      case Some(week) =>
        var d := IsoWeek.StartDate(year, week);
        CheckStart(p.(interval := Weekly), GoDate(d.year, d.month, d.day))
    else if HasPrefix(s, "q") then
      match Atoi(s[1..])
      case None => Err(BadNumber)
      case Some(quarter) =>
        if quarter > 4 then Err(BadQuarter)
        else CheckStart(p.(interval := Quarterly), GoDate(year, (quarter - 1) * MONTHS_IN_QUARTER + 1, 1))
    else
      match Atoi(s)
      case None => Err(BadNumber)
      case Some(month) => CheckStart(p.(interval := Monthly), GoDate(year, month, 1))
  }

  // ---- Names as numbers -------------------------------------------------------------------------------

  /** The numbers a name of the interval of t shows. */
  function Fields(iv: Interval, t: Time): (f: seq<int>)
    ensures |f| == FieldCount(iv)
  {
    var d := CivilDate(t);
    match iv
    case Daily => [d.year, d.month, d.day]
    case Weekly => [ISOWeek(t).0, ISOWeek(t).1]
    case Monthly => [d.year, d.month]
    case Quarterly => [d.year, (d.month - 1) / 3 + 1]
    case Yearly => [d.year]
  }

  function FieldCount(iv: Interval): nat {
    match iv
    case Daily => 3
    case Weekly | Monthly | Quarterly => 2
    case Yearly => 1
  }

  /** A name with the given numbers; weekly and quarterly years print in w columns. */
  function Render(iv: Interval, f: seq<int>, w: nat): string
    requires |f| == FieldCount(iv)
  {
    match iv
    case Daily => Number(f[0], 4) + "_" + Number(f[1], 2) + "_" + Number(f[2], 2)
    case Weekly => Number(f[0], w) + "_w" + Number(f[1], 2)
    case Monthly => Number(f[0], 4) + "_" + Number(f[1], 2)
    case Quarterly => Number(f[0], w) + "_q" + Number(f[1], 0)
    case Yearly => Number(f[0], 4)
  }

  /** The time a reader takes the numbers to mean. */
  function Meaning(iv: Interval, f: seq<int>): Time
    requires |f| == FieldCount(iv)
  {
    match iv
    case Daily => GoDate(f[0], f[1], f[2])
    case Weekly =>
      var d := IsoWeek.StartDate(f[0], f[1]);
      GoDate(d.year, d.month, d.day)
    case Monthly => GoDate(f[0], f[1], 1)
    case Quarterly => GoDate(f[0], (f[1] - 1) * 3 + 1, 1)
    case Yearly => GoDate(f[0], 1, 1)
  }

  predicate Printable(iv: Interval, f: seq<int>)
    requires |f| == FieldCount(iv)
  {
    (forall i :: 0 <= i < |f| ==> f[i] >= 0) && (iv.Quarterly? ==> f[1] <= 4)
  }

  // ---- The numbers of an interval are its own ----------------------------------------------------------

  lemma FieldsPrintable(iv: Interval, t: Time)
    requires ValidTime(t)
    ensures Printable(iv, Fields(iv, t)) && Fields(iv, t)[0] >= 1
  {
    hide DateToJulian, JulianToDate;
    YearOneDates(CivilDate(t));
    IsoWeek.WeekYearBounds(t.jdn);
  }

  /** The numbers of a name mean the first day of the interval. */
  lemma FieldsMean(iv: Interval, t: Time)
    requires ValidTime(t)
    ensures Meaning(iv, Fields(iv, t)) == StartTime(iv, Index(iv, t.jdn))
  {
    hide MonthStart, DateToJulian, JulianToDate, ISOWeek;
    var d := CivilDate(t);
    YearOneDates(d);
    match iv
    case Daily => GoDateOfDate(d);
    case Weekly => WeekMeans(t);
    case Monthly =>
    case Quarterly => QuarterParts(d);
    case Yearly =>
  }

  lemma QuarterParts(d: Date)
    requires 1 <= d.month <= 12
    ensures MonthIndex(d) / 3 == 4 * d.year + (d.month - 1) / 3
  {}

  lemma WeekMeans(t: Time)
    requires ValidTime(t)
    ensures Meaning(Weekly, Fields(Weekly, t)) == StartTime(Weekly, Index(Weekly, t.jdn))
  {
    hide MonthStart, DateToJulian, JulianToDate;
    var d := CivilDate(t);
    YearOneDates(d);
    IsoWeek.FromDateIsISO(d);
    IsoWeek.WeekHoldsDate(d);
    IsoWeek.WeekYearBounds(t.jdn);
    IsoWeek.ZeroYear();
    var s := IsoWeek.StartDate(ISOWeek(t).0, ISOWeek(t).1);
    IsoWeek.AtOrAfter(1, ISOWeek(t).0);
    IsoWeek.StartDateIsMonday(ISOWeek(t).0, ISOWeek(t).1);
    GoDateOfDate(s);
  }

  /** Two times show the same numbers exactly when they lie in the same interval. */
  lemma SameFields(iv: Interval, a: Time, b: Time)
    requires ValidTime(a) && ValidTime(b)
    ensures Fields(iv, a) == Fields(iv, b) <==> Index(iv, a.jdn) == Index(iv, b.jdn)
  {
    IndexHolds(iv, a.jdn);
    IndexHolds(iv, b.jdn);
    FieldsMean(iv, a);
    FieldsMean(iv, b);
    StartsDistinct(iv, Index(iv, a.jdn), Index(iv, b.jdn));
    if Index(iv, a.jdn) == Index(iv, b.jdn) {
      SameIndex(iv, a, b);
    }
  }

  lemma StartsDistinct(iv: Interval, i: int, j: int)
    requires i >= FirstIndex(iv) && j >= FirstIndex(iv)
    ensures Start(iv, i) == Start(iv, j) <==> i == j
  {
    hide Start;
    if i < j {
      StartsInOrder(iv, i, j);
    } else if j < i {
      StartsInOrder(iv, j, i);
    }
  }

  lemma SameIndex(iv: Interval, a: Time, b: Time)
    requires ValidTime(a) && ValidTime(b) && Index(iv, a.jdn) == Index(iv, b.jdn)
    ensures Fields(iv, a) == Fields(iv, b)
  {
    hide DateToJulian, JulianToDate;
    var c, d := CivilDate(a), CivilDate(b);
    match iv
    case Daily =>
    case Weekly => SameWeekFields(a, b);
    case Monthly =>
    case Quarterly =>
      QuarterParts(c);
      QuarterParts(d);
    case Yearly =>
  }

  lemma SameWeekFields(a: Time, b: Time)
    requires a.jdn / 7 == b.jdn / 7
    ensures ISOWeek(a) == ISOWeek(b)
  {
    hide DateToJulian, JulianToDate;
    assert IsoWeek.MondayOf(a.jdn) == 7 * (a.jdn / 7) && IsoWeek.MondayOf(b.jdn) == 7 * (b.jdn / 7);
    IsoWeek.WeekByMonday(a.jdn, b.jdn);
  }

  // ---- Printing and reading meet --------------------------------------------------------------------------

  lemma SuffixIsRender(iv: Interval, t: Time)
    requires ValidTime(t)
    ensures Suffix(iv, t) == Render(iv, Fields(iv, t), 0)
  {
    hide DateToJulian, JulianToDate, Number;
    var d := CivilDate(t);
  }

  lemma PrefixIsRender(iv: Interval, t: Time)
    requires ValidTime(t)
    ensures PartitionPrefix(iv, t) == Render(iv, Fields(iv, t), 4)
  {
    hide MonthStart, DateToJulian, JulianToDate, Number;
    var d := CivilDate(t);
    YearOneDates(d);
    match iv
    case Daily => DayBounds(t);
    case Weekly => IsoWeek.FromDateIsISO(d);
    case Monthly => FirstOfMonth(d, d.month);
    case Quarterly => FirstOfMonth(d, (d.month - 1) / 3 * 3 + 1);
    case Yearly => FirstOfMonth(d, 1);
  }

  lemma NumberReads(n: int, w: nat)
    requires n >= 0
    ensures AllDigits(Number(n, w)) && Atoi(Number(n, w)) == Some(n)
    ensures Free(Number(n, w), '_') && Free(Number(n, w), 'c') && Number(n, w) != ""
    ensures !HasPrefix(Number(n, w), "w") && !HasPrefix(Number(n, w), "q")
  {
    hide Padded, Value;
    AtoiPadded(n, w);
    var s := Number(n, w);
    assert IsDigit(s[0]);
  }

  lemma DigitsFree(s: string)
    requires AllDigits(s)
    ensures Free(s, '_') && Free(s, 'c') && Free(s, '/')
  {}

  /** The fields of a printed name, as Split sees them. */
  lemma SplitRender(iv: Interval, f: seq<int>, w: nat)
    requires |f| == FieldCount(iv) && Printable(iv, f)
    ensures var s := Render(iv, f, w);
            Free(s, 'c') && Free(s, '/')
            && Split(s, "_") == match iv
                 case Daily => [Number(f[0], 4), Number(f[1], 2), Number(f[2], 2)]
                 case Weekly => [Number(f[0], w), "w" + Number(f[1], 2)]
                 case Monthly => [Number(f[0], 4), Number(f[1], 2)]
                 case Quarterly => [Number(f[0], w), "q" + Number(f[1], 0)]
                 case Yearly => [Number(f[0], 4)]
  {
    hide Number, Split;
    NumberReads(f[0], 4);
    NumberReads(f[0], w);
    match iv
    case Daily =>
      NumberReads(f[1], 2);
      NumberReads(f[2], 2);
      SplitDay(Number(f[0], 4), Number(f[1], 2), Number(f[2], 2));
    case Weekly =>
      NumberReads(f[1], 2);
      SplitTagged(Number(f[0], w), "w", Number(f[1], 2));
      assert "_" + "w" == "_w";
    case Monthly =>
      NumberReads(f[1], 2);
      SplitTagged(Number(f[0], 4), "", Number(f[1], 2));
      assert "_" + "" == "_" && "" + Number(f[1], 2) == Number(f[1], 2);
    case Quarterly =>
      NumberReads(f[1], 0);
      SplitTagged(Number(f[0], w), "q", Number(f[1], 0));
      assert "_" + "q" == "_q";
    case Yearly =>
      DigitsFree(Number(f[0], 4));
      SplitWhole(Number(f[0], 4), "_");
  }

  lemma SplitDay(y: string, m: string, d: string)
    requires AllDigits(y) && AllDigits(m) && AllDigits(d)
    ensures var s := y + "_" + m + "_" + d; Free(s, 'c') && Free(s, '/') && Split(s, "_") == [y, m, d]
  {
    hide Split;
    SplitTwo(y, m + "_" + d);
    SplitTwo(m, d);
    SplitWhole(d, "_");
    assert y + "_" + m + "_" + d == y + "_" + (m + "_" + d);
  }

  lemma SplitTagged(y: string, tag: string, n: string)
    requires AllDigits(y) && AllDigits(n) && (tag == "" || tag == "w" || tag == "q")
    ensures var s := y + ("_" + tag) + n; Free(s, 'c') && Free(s, '/') && Split(s, "_") == [y, tag + n]
  {
    hide Split;
    SplitTwo(y, tag + n);
    SplitWhole(tag + n, "_");
    assert y + ("_" + tag) + n == y + "_" + (tag + n);
  }

  lemma SplitTwo(a: string, b: string)
    requires Free(a, '_')
    ensures Split(a + "_" + b, "_") == [a] + Split(b, "_")
  {
    SplitField(a, "_", b);
  }

  /** The prefix of a printed name is its suffix. */
  lemma SplitName(s: string)
    requires Free(s, 'c')
    ensures Split("calls_p_" + s, "calls_p_") == ["", s]
  {
    SplitField("", "calls_p_", s);
    SplitWhole(s, "calls_p_");
    assert "" + "calls_p_" + s == "calls_p_" + s;
  }

  lemma VerifyThreeParts(pr: PartitionResult, s: string, y: string, m: string, d: string)
    requires !StrictlyBefore(pr.upper, pr.lower)
    requires |Split(pr.name, "calls_p_")| == 2 && Split(pr.name, "calls_p_")[1] == s
    requires Split(s, "_") == [y, m, d]
    requires Atoi(y).Some? && Atoi(m).Some? && Atoi(d).Some?
    ensures VerifyPartName(pr) == CheckStart(Partition(pr.parent, pr.schema, pr.name, Daily, pr.lower),
                                             GoDate(Atoi(y).value, Atoi(m).value, Atoi(d).value))
  {
    hide Split, Atoi, GoDate;
  }

  lemma VerifyTwoParts(pr: PartitionResult, s: string, y: string, n: string)
    requires !StrictlyBefore(pr.upper, pr.lower)
    requires |Split(pr.name, "calls_p_")| == 2 && Split(pr.name, "calls_p_")[1] == s
    requires Split(s, "_") == [y, n] && Atoi(y).Some?
    ensures VerifyPartName(pr)
         == VerifyTwo(Partition(pr.parent, pr.schema, pr.name, Daily, pr.lower), Atoi(y).value, n)
  {
    hide Split, Atoi, GoDate, VerifyTwo;
  }

  lemma VerifyOnePart(pr: PartitionResult, s: string, y: string)
    requires !StrictlyBefore(pr.upper, pr.lower)
    requires |Split(pr.name, "calls_p_")| == 2 && Split(pr.name, "calls_p_")[1] == s
    requires Split(s, "_") == [y] && Atoi(y).Some?
    ensures VerifyPartName(pr) == CheckStart(Partition(pr.parent, pr.schema, pr.name, Yearly, pr.lower),
                                             GoDate(Atoi(y).value, 1, 1))
  {
    hide Split, Atoi, GoDate;
  }

  lemma VerifySecond(iv: Interval, p: Partition, year: int, n: int)
    requires iv.Weekly? || iv.Monthly? || iv.Quarterly?
    requires n >= 0 && (iv.Quarterly? ==> n <= 4)
    ensures var s := if iv.Weekly? then "w" + Number(n, 2)
                     else if iv.Monthly? then Number(n, 2) else "q" + Number(n, 0);
            VerifyTwo(p, year, s) == CheckStart(p.(interval := iv), Meaning(iv, [year, n]))
  {
    hide Number, Atoi, GoDate, IsoWeek.StartDate;
    NumberReads(n, 2);
    NumberReads(n, 0);
    assert ("w" + Number(n, 2))[1..] == Number(n, 2);
    assert ("q" + Number(n, 0))[1..] == Number(n, 0);
    assert ("q" + Number(n, 0))[0] == 'q';
  }

  /** A printed name is read as its kind, and accepted exactly at the start its numbers mean. */
  lemma VerifyRender(iv: Interval, f: seq<int>, w: nat, schema: string, lower: Time, upper: Time)
    requires |f| == FieldCount(iv) && Printable(iv, f) && !StrictlyBefore(upper, lower)
    ensures var name := "calls_p_" + Render(iv, f, w);
            VerifyPartName(PartitionResult(CALLS_TABLE, schema, name, lower, upper))
            == if lower == Meaning(iv, f) then Ok(Partition(CALLS_TABLE, schema, name, iv, lower))
               else Err(StartMismatch)
  {
    hide Number, Split, GoDate, Render, Atoi, VerifyTwo, VerifyPartName, IsoWeek.StartDate;
    var s := Render(iv, f, w);
    var pr := PartitionResult(CALLS_TABLE, schema, "calls_p_" + s, lower, upper);
    var p := Partition(CALLS_TABLE, schema, pr.name, Daily, lower);
    SplitRender(iv, f, w);
    SplitName(s);
    NumberReads(f[0], 4);
    NumberReads(f[0], w);
    match iv
    case Daily =>
      NumberReads(f[1], 2);
      NumberReads(f[2], 2);
      VerifyThreeParts(pr, s, Number(f[0], 4), Number(f[1], 2), Number(f[2], 2));
    case Weekly =>
      VerifyTwoParts(pr, s, Number(f[0], w), "w" + Number(f[1], 2));
      VerifySecond(iv, p, f[0], f[1]);
      assert f == [f[0], f[1]];
    case Monthly =>
      VerifyTwoParts(pr, s, Number(f[0], 4), Number(f[1], 2));
      VerifySecond(iv, p, f[0], f[1]);
      assert f == [f[0], f[1]];
    case Quarterly =>
      VerifyTwoParts(pr, s, Number(f[0], w), "q" + Number(f[1], 0));
      VerifySecond(iv, p, f[0], f[1]);
      assert f == [f[0], f[1]];
    case Yearly =>
      VerifyOnePart(pr, s, Number(f[0], 4));
  }

  // ---- Which names are accepted ------------------------------------------------------------------------------

  /** The text spells the numbers of a kind of interval, each as Atoi reads it, with signs or leading zeros. */
  ghost predicate Spells(iv: Interval, text: string, f: seq<int>)
    requires |f| == FieldCount(iv)
  {
    match iv
    case Daily =>
      exists y: string, m: string, d: string ::
        text == y + "_" + m + "_" + d && Atoi(y) == Some(f[0]) && Atoi(m) == Some(f[1]) && Atoi(d) == Some(f[2])
    case Weekly =>
      exists y: string, n: string :: text == y + "_w" + n && Atoi(y) == Some(f[0]) && Atoi(n) == Some(f[1])
    case Monthly =>
      exists y: string, n: string :: text == y + "_" + n && Atoi(y) == Some(f[0]) && Atoi(n) == Some(f[1])
    case Quarterly =>
      exists y: string, n: string :: text == y + "_q" + n && Atoi(y) == Some(f[0]) && Atoi(n) == Some(f[1])
    case Yearly => Atoi(text) == Some(f[0])
  }

  /** The name is anything, the separator, which does not occur before, and the text. */
  ghost predicate EndsIn(name: string, text: string) {
    exists pre: string ::
      name == pre + "calls_p_" + text && forall i :: 0 <= i < |pre| ==> !OccursAt(name, "calls_p_", i)
  }

  /** The row's name shows the numbers of the interval that starts where the row does. */
  ghost predicate Names(iv: Interval, pr: PartitionResult, text: string, f: seq<int>) {
    |f| == FieldCount(iv) && EndsIn(pr.name, text) && Spells(iv, text, f) && (iv.Quarterly? ==> f[1] <= 4)
    && pr.lower == Meaning(iv, f)
  }

  /** The row's bounds are in order, and its name is one of an interval of that kind that starts there. */
  ghost predicate NamedAs(iv: Interval, pr: PartitionResult) {
    !StrictlyBefore(pr.upper, pr.lower) && exists text, f :: Names(iv, pr, text, f)
  }

  /** A row is read as a kind of interval exactly when its bounds are in order and its name shows, for that
      kind, numbers that mean its lower bound. */
  lemma AcceptedExactly(pr: PartitionResult, iv: Interval)
    ensures (VerifyPartName(pr).Ok? && VerifyPartName(pr).value.interval == iv)
       <==> NamedAs(iv, pr)
  {
    hide VerifyPartName, Names;
    if VerifyPartName(pr).Ok? && VerifyPartName(pr).value.interval == iv {
      var text, f := AcceptedNames(pr);
    }
    if NamedAs(iv, pr) {
      var text, f :| Names(iv, pr, text, f);
      NamedIsAccepted(iv, pr, text, f);
    }
  }

  lemma NumeralFree(s: string)
    requires Atoi(s).Some?
    ensures Free(s, '_') && Free(s, 'c') && !HasPrefix(s, "w") && !HasPrefix(s, "q") && s != ""
  {
    hide Value;
  }

  /** Split cuts at the first occurrence of the separator, and goes on behind it. */
  lemma SplitStep(s: string, sep: string) returns (rest: string)
    requires sep != ""
    ensures var i := FirstFrom(s, sep, 0);
            if i == |s| then Split(s, sep) == [s]
            else s == s[..i] + sep + rest && Split(s, sep) == [s[..i]] + Split(rest, sep) && |Split(rest, sep)| >= 1
  {
    hide FirstFrom;
    var i := FirstFrom(s, sep, 0);
    rest := if i == |s| then "" else s[i + |sep|..];
  }

  lemma SplitsInOne(s: string, sep: string)
    requires sep != "" && |Split(s, sep)| == 1
    ensures Split(s, sep) == [s]
  {
    hide Split, FirstFrom;
    var _ := SplitStep(s, sep);
  }

  lemma SplitsInTwo(s: string, sep: string)
    requires sep != "" && |Split(s, sep)| == 2
    ensures var p := Split(s, sep); s == p[0] + sep + p[1] && FirstFrom(s, sep, 0) == |p[0]|
  {
    hide Split, FirstFrom;
    var rest := SplitStep(s, sep);
    SplitsInOne(rest, sep);
  }

  lemma SplitsInThree(s: string, sep: string)
    requires sep != "" && |Split(s, sep)| == 3
    ensures var p := Split(s, sep); s == p[0] + sep + (p[1] + sep + p[2])
  {
    hide Split, FirstFrom;
    var rest := SplitStep(s, sep);
    SplitsInTwo(rest, sep);
  }

  lemma AcceptedNames(pr: PartitionResult) returns (text: string, f: seq<int>)
    requires VerifyPartName(pr).Ok?
    ensures !StrictlyBefore(pr.upper, pr.lower) && Names(VerifyPartName(pr).value.interval, pr, text, f)
  {
    hide Split, Atoi, GoDate, IsoWeek.StartDate, EndsIn, FirstFrom;
    var parts := Split(pr.name, "calls_p_");
    text := parts[1];
    SplitsInTwo(pr.name, "calls_p_");
    OnlyThere(pr.name, parts[0], text);
    var date := Split(text, "_");
    if |date| == 3 {
      SplitsInThree(text, "_");
      f := [Atoi(date[0]).value, Atoi(date[1]).value, Atoi(date[2]).value];
      assert text == date[0] + "_" + date[1] + "_" + date[2];
    } else if |date| == 2 {
      SplitsInTwo(text, "_");
      f := AcceptedSecond(pr, text, date[0], date[1]);
    } else {
      SplitsInOne(text, "_");
      f := [Atoi(date[0]).value];
    }
  }

  lemma OnlyThere(name: string, pre: string, text: string)
    requires name == pre + "calls_p_" + text && FirstFrom(name, "calls_p_", 0) == |pre|
    ensures EndsIn(name, text)
  {}

  lemma AcceptedSecond(pr: PartitionResult, text: string, y: string, s: string) returns (f: seq<int>)
    requires text == y + "_" + s && Atoi(y).Some?
    requires var p := Partition(pr.parent, pr.schema, pr.name, Daily, pr.lower);
             VerifyTwo(p, Atoi(y).value, s).Ok?
    ensures var p := Partition(pr.parent, pr.schema, pr.name, Daily, pr.lower);
            var iv := VerifyTwo(p, Atoi(y).value, s).value.interval;
            |f| == FieldCount(iv) && Spells(iv, text, f) && (iv.Quarterly? ==> f[1] <= 4) && pr.lower == Meaning(iv, f)
  {
    hide Atoi, GoDate, IsoWeek.StartDate;
    if HasPrefix(s, "w") {
      f := [Atoi(y).value, Atoi(s[1..]).value];
      assert text == y + "_w" + s[1..];
    } else if HasPrefix(s, "q") {
      f := [Atoi(y).value, Atoi(s[1..]).value];
      assert text == y + "_q" + s[1..];
    } else {
      f := [Atoi(y).value, Atoi(s).value];
    }
  }

  /** A name that ends in a text without the separator splits there. */
  lemma SplitOnly(name: string, text: string)
    requires EndsIn(name, text) && Free(text, 'c')
    ensures |Split(name, "calls_p_")| == 2 && Split(name, "calls_p_")[1] == text
  {
    hide FirstFrom;
    var sep := "calls_p_";
    var pre: string :| name == pre + sep + text && forall i :: 0 <= i < |pre| ==> !OccursAt(name, sep, i);
    assert name[|pre|..|pre| + |sep|] == sep;
    assert OccursAt(name, sep, |pre|);
    assert FirstFrom(name, sep, 0) == |pre|;
    assert name[|pre| + |sep|..] == text;
    SplitWhole(text, sep);
  }

  lemma NamedIsAccepted(iv: Interval, pr: PartitionResult, text: string, f: seq<int>)
    requires Names(iv, pr, text, f) && !StrictlyBefore(pr.upper, pr.lower)
    ensures VerifyPartName(pr).Ok? && VerifyPartName(pr).value.interval == iv
  {
    hide Split, Atoi, GoDate, IsoWeek.StartDate, VerifyPartName, EndsIn, Meaning;
    match iv
    case Daily =>
      var y: string, m: string, d: string :| text == y + "_" + m + "_" + d
          && Atoi(y) == Some(f[0]) && Atoi(m) == Some(f[1]) && Atoi(d) == Some(f[2]);
      NamedDay(pr, text, f, y, m, d);
    case Weekly =>
      var y: string, n: string :| text == y + "_w" + n && Atoi(y) == Some(f[0]) && Atoi(n) == Some(f[1]);
      assert "_" + "w" == "_w";
      NamedSecond(iv, pr, text, f, y, "w", n);
    case Monthly =>
      var y: string, n: string :| text == y + "_" + n && Atoi(y) == Some(f[0]) && Atoi(n) == Some(f[1]);
      assert "_" + "" == "_";
      NamedSecond(iv, pr, text, f, y, "", n);
    case Quarterly =>
      var y: string, n: string :| text == y + "_q" + n && Atoi(y) == Some(f[0]) && Atoi(n) == Some(f[1]);
      assert "_" + "q" == "_q";
      NamedSecond(iv, pr, text, f, y, "q", n);
    case Yearly => NamedYear(pr, text, f);
  }

  lemma NamedDay(pr: PartitionResult, text: string, f: seq<int>, y: string, m: string, d: string)
    requires Names(Daily, pr, text, f) && !StrictlyBefore(pr.upper, pr.lower)
    requires text == y + "_" + m + "_" + d
    requires Atoi(y) == Some(f[0]) && Atoi(m) == Some(f[1]) && Atoi(d) == Some(f[2])
    ensures VerifyPartName(pr).Ok? && VerifyPartName(pr).value.interval == Daily
  {
    hide Split, Atoi, GoDate, VerifyPartName, EndsIn, Spells;
    NumeralFree(y);
    NumeralFree(m);
    NumeralFree(d);
    assert text == y + "_" + (m + "_" + d);
    SplitTwo(y, m + "_" + d);
    SplitTwo(m, d);
    SplitWhole(d, "_");
    SplitOnly(pr.name, text);
    VerifyThreeParts(pr, text, y, m, d);
  }

  lemma NamedYear(pr: PartitionResult, text: string, f: seq<int>)
    requires Names(Yearly, pr, text, f) && !StrictlyBefore(pr.upper, pr.lower)
    ensures VerifyPartName(pr).Ok? && VerifyPartName(pr).value.interval == Yearly
  {
    hide Split, Atoi, GoDate, VerifyPartName, EndsIn;
    NumeralFree(text);
    SplitWhole(text, "_");
    SplitOnly(pr.name, text);
    VerifyOnePart(pr, text, text);
  }

  lemma NamedSecond(iv: Interval, pr: PartitionResult, text: string, f: seq<int>, y: string, tag: string, n: string)
    requires Names(iv, pr, text, f) && !StrictlyBefore(pr.upper, pr.lower)
    requires (iv.Weekly? && tag == "w") || (iv.Monthly? && tag == "") || (iv.Quarterly? && tag == "q")
    requires text == y + ("_" + tag) + n && Atoi(y) == Some(f[0]) && Atoi(n) == Some(f[1])
    ensures VerifyPartName(pr).Ok? && VerifyPartName(pr).value.interval == iv
  {
    hide Split, Atoi, GoDate, IsoWeek.StartDate, FirstFrom, VerifyPartName, EndsIn;
    NumeralFree(y);
    NumeralFree(n);
    assert text == y + "_" + (tag + n) && (tag + n)[|tag|..] == n;
    SplitTwo(y, tag + n);
    SplitWhole(tag + n, "_");
    SplitOnly(pr.name, text);
    VerifyTwoParts(pr, text, y, tag + n);
    assert tag != "" ==> (tag + n)[..1] == tag;
    assert tag == "" ==> tag + n == n;
  }

  /** Names that print alike, whatever the widths, mean the same first day. */
  lemma RenderMeans(iv: Interval, f: seq<int>, w: nat, g: seq<int>, v: nat)
    requires |f| == |g| == FieldCount(iv) && Printable(iv, f) && Printable(iv, g)
    requires Render(iv, f, w) == Render(iv, g, v)
    ensures Meaning(iv, f) == Meaning(iv, g)
  {
    hide Render, Meaning, VerifyPartName;
    VerifyRender(iv, f, w, "", Meaning(iv, f), Meaning(iv, f));
    VerifyRender(iv, g, v, "", Meaning(iv, f), Meaning(iv, f));
  }

  // ---- The properties ----------------------------------------------------------------------------------------

  lemma NameOf(schema: string, iv: Interval, t: Time)
    requires ValidTime(t)
    ensures NewPartition(schema, iv, t)
        == Partition(CALLS_TABLE, schema, "calls_p_" + Render(iv, Fields(iv, t), 0), iv, t)
    ensures Printable(iv, Fields(iv, t)) && Fields(iv, t)[0] >= 1
    ensures Meaning(iv, Fields(iv, t)) == StartTime(iv, Index(iv, t.jdn))
  {
    hide Suffix, Render, Fields, Index, Meaning;
    SuffixIsRender(iv, t);
    FieldsPrintable(iv, t);
    FieldsMean(iv, t);
    assert "calls" + "_p_" + Suffix(iv, t) == "calls_p_" + Suffix(iv, t);
  }

  /** The names that the source documents, for a time on 28 November 2024. */
  lemma NamesAsDocumented(schema: string, t: Time)
    requires ValidTime(t) && CivilDate(t) == Date(2024, 11, 28)
    ensures NewPartition(schema, Daily, t).name == "calls_p_2024_11_28"
    ensures NewPartition(schema, Weekly, t).name == "calls_p_2024_w48"
    ensures NewPartition(schema, Monthly, t).name == "calls_p_2024_11"
    ensures NewPartition(schema, Quarterly, t).name == "calls_p_2024_q4"
    ensures NewPartition(schema, Yearly, t).name == "calls_p_2024"
  {
    hide NewPartition, Fields, Render, Meaning, CivilDate, Index, Start;
    FieldsDocumented(t);
    RenderDocumented();
    NameOf(schema, Daily, t);
    NameOf(schema, Weekly, t);
    NameOf(schema, Monthly, t);
    NameOf(schema, Quarterly, t);
    NameOf(schema, Yearly, t);
  }

  lemma FieldsDocumented(t: Time)
    requires ValidTime(t) && CivilDate(t) == Date(2024, 11, 28)
    ensures Fields(Daily, t) == [2024, 11, 28] && Fields(Weekly, t) == [2024, 48] && Fields(Monthly, t) == [2024, 11]
    ensures Fields(Quarterly, t) == [2024, 4] && Fields(Yearly, t) == [2024]
  {
    hide DateToJulian, JulianToDate, IsoWeek.WeekYear, IsoWeek.WeekNumber, IsoWeek.FromDate;
    YearOneDates(CivilDate(t));
    IsoWeek.FromDateIsISO(CivilDate(t));
    WeekDocumented();
  }

  lemma WeekDocumented()
    ensures IsoWeek.FromDate(2024, 11, 28) == (2024, 48)
  {}

  lemma RenderDocumented()
    ensures Render(Daily, [2024, 11, 28], 0) == "2024_11_28" && Render(Weekly, [2024, 48], 0) == "2024_w48"
    ensures Render(Monthly, [2024, 11], 0) == "2024_11" && Render(Quarterly, [2024, 4], 0) == "2024_q4"
    ensures Render(Yearly, [2024], 0) == "2024"
  {
    hide Number;
    YearPrints();
    TwoDigitsPrint(1, 1);
    TwoDigitsPrint(2, 8);
    TwoDigitsPrint(4, 8);
    DigitPrints(4);
  }

  lemma DigitPrints(n: nat)
    requires n < 10
    ensures Number(n, 0) == ["0123456789"[n]]
  {
    DecimalStep(n, n, 0);
  }

  lemma TwoDigitsPrint(a: nat, b: nat)
    requires 1 <= a < 10 && b < 10
    ensures Number(10 * a + b, 2) == ["0123456789"[a], "0123456789"[b]]
  {
    hide Decimal, Padded;
    DecimalStep(a, b, 0);
    DecimalStep(a, a, 0);
    DecimalStep(10 * a + b, b, 2);
  }

  lemma YearPrints()
    ensures Number(2024, 4) == Number(2024, 0) == "2024"
  {
    hide Decimal, Padded;
    DecimalStep(2, 0, 0);
    DecimalStep(2, 2, 0);
    DecimalStep(20, 2, 0);
    DecimalStep(202, 4, 0);
    DecimalStep(2024, 2, 4);
    DecimalStep(2024, 2, 0);
    assert Decimal(2024) == "2024";
  }

  /** Partitions of one kind have the same name exactly when they are the same interval. */
  lemma NamesIdentify(schema: string, iv: Interval, a: Time, b: Time)
    requires ValidTime(a) && ValidTime(b)
    ensures NewPartition(schema, iv, a).name == NewPartition(schema, iv, b).name
       <==> Index(iv, a.jdn) == Index(iv, b.jdn)
  {
    hide NewPartition, Render, Fields, Index, Start, Meaning;
    NameOf(schema, iv, a);
    NameOf(schema, iv, b);
    SameFields(iv, a, b);
    IndexHolds(iv, a.jdn);
    IndexHolds(iv, b.jdn);
    var f, g := Fields(iv, a), Fields(iv, b);
    if "calls_p_" + Render(iv, f, 0) == "calls_p_" + Render(iv, g, 0) {
      assert Render(iv, f, 0) == ("calls_p_" + Render(iv, f, 0))[8..] == Render(iv, g, 0);
      RenderMeans(iv, f, 0, g, 0);
      StartsDistinct(iv, Index(iv, a.jdn), Index(iv, b.jdn));
    }
  }

  /** Names parse back: the kind is recovered, and exactly the interval's first day accepted. */
  lemma NamesParseBack(schema: string, iv: Interval, t: Time, lower: Time, upper: Time)
    requires ValidTime(t) && !StrictlyBefore(upper, lower)
    ensures var name := NewPartition(schema, iv, t).name;
            VerifyPartName(PartitionResult(CALLS_TABLE, schema, name, lower, upper))
            == if lower == StartTime(iv, Index(iv, t.jdn)) then Ok(Partition(CALLS_TABLE, schema, name, iv, lower))
               else Err(StartMismatch)
  {
    hide NewPartition, Render, Fields, Index, Meaning, Start, VerifyPartName;
    NameOf(schema, iv, t);
    VerifyRender(iv, Fields(iv, t), 0, schema, lower, upper);
  }

  /** A partition's own name accepts the range it is created with, except on a Sunday of a weekly
      scheme: its name is this week's and its range the next. */
  lemma OwnRangeAccepted(schema: string, iv: Interval, t: Time)
    requires ValidTime(t)
    ensures var (lower, upper) := Bounds(iv, t);
            VerifyPartName(PartitionResult(CALLS_TABLE, schema, NewPartition(schema, iv, t).name, lower, upper)).Ok?
            <==> !SundayWeek(iv, t)
  {
    hide Bounds, Start, Index, VerifyPartName, NewPartition;
    BoundsByIndex(iv, t);
    var k := Index(iv, t.jdn);
    IndexHolds(iv, t.jdn);
    StartsInOrder(iv, k, k + 1);
    StartsInOrder(iv, k + 1, k + 2);
    var (lower, upper) := Bounds(iv, t);
    NamesParseBack(schema, iv, t, lower, upper);
  }

  /** The years whose weekly and quarterly prefixes print like their names. */
  predicate PrintsAlike(iv: Interval, t: Time) {
    iv.Weekly? || iv.Quarterly? ==> Fields(iv, t)[0] >= 1000
  }

  /** The prefix of a call time is the prefix of a partition exactly when the time lies in the
      partition's range; before year 1000 a weekly or quarterly prefix is padded and the name is not. */
  lemma PrefixMeansRange(schema: string, iv: Interval, k: int, t: Time)
    requires k >= FirstIndex(iv) && ValidTime(t)
    ensures var p := NewPartition(schema, iv, StartTime(iv, k));
            var (lower, upper) := Bounds(iv, p.time);
            |Split(p.name, "calls_p_")| == 2
            && (PartitionPrefix(iv, t) == Prefix(p)
                <==> AtOrBefore(lower, t) && StrictlyBefore(t, upper) && PrintsAlike(iv, t))
  {
    hide Index, Start, Bounds, PartitionPrefix, Render, Split, Fields, NewPartition, Meaning;
    var s := StartTime(iv, k);
    IndexOfStart(iv, k);
    StartNotSunday(iv, k);
    BoundsByIndex(iv, s);
    PrefixAsRender(schema, iv, s);
    PrefixIsRender(iv, t);
    NameOf(schema, iv, s);
    NameOf(schema, iv, t);
    SameFields(iv, s, t);
    IndexHolds(iv, t.jdn);
    IndexUnique(iv, t.jdn, k);
    RenderWidths(iv, Fields(iv, t));
    if Render(iv, Fields(iv, t), 4) == Render(iv, Fields(iv, s), 0) {
      RenderMeans(iv, Fields(iv, t), 4, Fields(iv, s), 0);
      StartsDistinct(iv, k, Index(iv, t.jdn));
    }
  }

  lemma StartNotSunday(iv: Interval, k: int)
    ensures !SundayWeek(iv, StartTime(iv, k))
  {}

  lemma PrefixAsRender(schema: string, iv: Interval, s: Time)
    requires ValidTime(s)
    ensures var p := NewPartition(schema, iv, s);
            |Split(p.name, "calls_p_")| == 2 && Prefix(p) == Render(iv, Fields(iv, s), 0) && p.time == s
  {
    hide Render, Fields, Split, NewPartition;
    NameOf(schema, iv, s);
    SplitRender(iv, Fields(iv, s), 0);
    SplitName(Render(iv, Fields(iv, s), 0));
  }

  /** Padding to four columns shows exactly below 1000. */
  lemma RenderWidths(iv: Interval, f: seq<int>)
    requires |f| == FieldCount(iv) && f[0] >= 0
    ensures Render(iv, f, 4) == Render(iv, f, 0)
       <==> (iv.Weekly? || iv.Quarterly? ==> f[0] >= 1000)
  {
    hide Number;
    PaddedWidths(f[0]);
    if iv.Weekly? {
      SameTail(Number(f[0], 4), Number(f[0], 0), "_w" + Number(f[1], 2));
      TwoTails(Number(f[0], 4), Number(f[0], 0), "_w", Number(f[1], 2));
    } else if iv.Quarterly? {
      SameTail(Number(f[0], 4), Number(f[0], 0), "_q" + Number(f[1], 0));
      TwoTails(Number(f[0], 4), Number(f[0], 0), "_q", Number(f[1], 0));
    }
  }

  lemma TwoTails(a: string, b: string, x: string, y: string)
    ensures a + (x + y) == (a + x) + y && b + (x + y) == (b + x) + y
  {}

  lemma PaddedWidths(n: nat)
    ensures Number(n, 4) == Number(n, 0) <==> n >= 1000
  {
    if n >= 1000 {
      PaddingIdle(n);
    } else {
      PaddingShows(n);
    }
  }

  lemma SameTail(a: string, b: string, tail: string)
    ensures a + tail == b + tail <==> a == b
  {
    if a + tail == b + tail {
      assert |a| == |b|;
      assert a == (a + tail)[..|a|] == (b + tail)[..|b|] == b;
    }
  }
}
