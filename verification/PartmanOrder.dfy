/**
 Checks in the order of time, and what goes wrong when a step skips a quarter.
 */
module PartmanOrder {
  import opened Julian
  import opened CivilTime
  import opened Intervals
  import opened PartitionNames
  import opened Partman
  import opened PartmanRuns

  function NameAt(cfg: Config, k: int): string {
    RowOf(cfg, k).name
  }

  lemma NamesAt(cfg: Config, i: int, j: int)
    requires i >= FirstIndex(cfg.interval) && j >= FirstIndex(cfg.interval)
    ensures NameAt(cfg, i) == NameAt(cfg, j) <==> i == j
  {
    hide RowOf;
    RowsApart(cfg, i, j);
  }

  /** A step's name is that of its interval, on a Sunday too. */
  lemma StepName(cfg: Config, now: Time, i: int)
    requires InCalendar(cfg, now) && InReach(cfg, i)
    ensures StepIndex(cfg, now, i) >= FirstIndex(cfg.interval)
    ensures Step(cfg, now, i).name == NameAt(cfg, StepIndex(cfg, now, i))
  {
    hide Start, Index, NewPartition, StepTime, StepIndex;
    StepPlaces(cfg, now, i);
    var k := StepIndex(cfg, now, i);
    IndexHolds(cfg.interval, StepTime(cfg, now, i).jdn);
    IndexOfStart(cfg.interval, k);
    NamesIdentify(cfg.schema, cfg.interval, StepTime(cfg, now, i), StartTime(cfg.interval, k));
  }

  /** The names expected at a time are those of the steps in reach. */
  lemma ExpectedNames(cfg: Config, now: Time, n: string)
    requires InCalendar(cfg, now)
    ensures n in NamesOf(Expected(cfg, now))
        <==> exists i :: InReach(cfg, i) && n == NameAt(cfg, StepIndex(cfg, now, i))
  {
    hide Expected, Step, StepIndex, NameAt, InCalendar;
    if n in NamesOf(Expected(cfg, now)) {
      var p :| p in Expected(cfg, now) && p.name == n;
      ExpectedAreSteps(cfg, now, p);
      var i :| InReach(cfg, i) && p == Step(cfg, now, i);
      StepName(cfg, now, i);
    }
    if exists i :: InReach(cfg, i) && n == NameAt(cfg, StepIndex(cfg, now, i)) {
      var i :| InReach(cfg, i) && n == NameAt(cfg, StepIndex(cfg, now, i));
      StepName(cfg, now, i);
      ExpectedAreSteps(cfg, now, Step(cfg, now, i));
    }
  }

  // ---- Times in order --------------------------------------------------------------------------------------

  function At(cfg: Config, now: Time): int {
    Index(cfg.interval, now.jdn)
  }

  /** Where no step overflows, the expected names are those of consecutive intervals around now. */
  lemma ExpectedSpan(cfg: Config, now: Time, m: int)
    requires InCalendar(cfg, now) && TilesCleanly(cfg, now) && m >= FirstIndex(cfg.interval)
    ensures NameAt(cfg, m) in NamesOf(Expected(cfg, now)) <==> InReach(cfg, m - At(cfg, now))
  {
    hide Expected, NameAt, TilesCleanly, Overflows, NamesOf, Index, FirstIndex;
    CleanMeansNoOverflow(cfg, now);
    ExpectedNames(cfg, now, NameAt(cfg, m));
    if InReach(cfg, m - At(cfg, now)) {
      assert StepIndex(cfg, now, m - At(cfg, now)) == m;
    }
    if NameAt(cfg, m) in NamesOf(Expected(cfg, now)) {
      var i :| InReach(cfg, i) && NameAt(cfg, m) == NameAt(cfg, StepIndex(cfg, now, i));
      StepName(cfg, now, i);
      NamesAt(cfg, m, StepIndex(cfg, now, i));
    }
  }

  /** A later day lies in the same or a later interval. */
  lemma IndexInOrder(iv: Interval, a: int, b: int)
    requires YEAR_ONE <= a <= b
    ensures Index(iv, a) <= Index(iv, b)
  {
    hide Index, Start, FirstIndex;
    IndexHolds(iv, a);
    IndexHolds(iv, b);
    var i, j := Index(iv, a), Index(iv, b);
    if j + 1 < i {
      StartsInOrder(iv, j + 1, i);
    }
  }

  /** What checks in order leave before a check of interval k: no row beyond the provided ones, no gap
      among the rows from the retained ones on, and detached tables only of earlier intervals. */
  ghost predicate Ordered(cfg: Config, c: Catalog, k: int) {
    Aligned(cfg, c)
    && (forall j :: j >= FirstIndex(cfg.interval) && RowOf(cfg, j) in c.rows ==> j <= k + cfg.preProvision)
    && (forall j, m :: k - Retained(cfg) <= m <= j && FirstIndex(cfg.interval) <= m && RowOf(cfg, j) in c.rows ==>
          RowOf(cfg, m) in c.rows)
    && (forall n :: n in c.tables ==>
      exists j :: FirstIndex(cfg.interval) <= j < k - Retained(cfg) && n == NameAt(cfg, j))
  }

  lemma OrderedLater(cfg: Config, c: Catalog, k: int, k': int)
    requires Ordered(cfg, c, k) && k <= k'
    ensures Ordered(cfg, c, k')
  {
    hide Aligned, RowOf, NameAt, FirstIndex;
    forall n | n in c.tables
      ensures exists j :: FirstIndex(cfg.interval) <= j < k' - Retained(cfg) && n == NameAt(cfg, j)
    {
      var j :| FirstIndex(cfg.interval) <= j < k - Retained(cfg) && n == NameAt(cfg, j);
    }
  }

  /** In a catalogue of whole intervals a name stands for its row. */
  lemma NamedRow(cfg: Config, c: Catalog, m: int)
    requires Aligned(cfg, c) && m >= FirstIndex(cfg.interval)
    ensures NameAt(cfg, m) in RowNames(c.rows) <==> RowOf(cfg, m) in c.rows
  {
    hide RowOf, FirstIndex;
    if NameAt(cfg, m) in RowNames(c.rows) {
      var row :| row in c.rows && row.name == NameAt(cfg, m);
      assert IsRow(cfg, row);
      var j :| j >= FirstIndex(cfg.interval) && row == RowOf(cfg, j);
      NamesAt(cfg, m, j);
    }
  }

  /** A missing partition is a step in reach whose row is not there. */
  lemma MissingStep(cfg: Config, c: Catalog, now: Time, p: Partition) returns (m: int)
    requires Aligned(cfg, c) && InCalendar(cfg, now) && TilesCleanly(cfg, now) && p in Missing(cfg, c, now)
    ensures m >= FirstIndex(cfg.interval) && InReach(cfg, m - At(cfg, now))
    ensures p == Step(cfg, now, m - At(cfg, now)) && p.name == NameAt(cfg, m) && RowOf(cfg, m) !in c.rows
  {
    hide Expected, Step, NameAt, TilesCleanly, Overflows, Index, FirstIndex, Aligned, RowOf, InCalendar;
    CleanMeansNoOverflow(cfg, now);
    ExpectedAreSteps(cfg, now, p);
    var i :| InReach(cfg, i) && p == Step(cfg, now, i);
    StepName(cfg, now, i);
    m := At(cfg, now) + i;
    NamedRow(cfg, c, m);
  }

  /** A check in order succeeds. */
  lemma OrderedCheckSucceeds(cfg: Config, c: Catalog, now: Time)
    requires InCalendar(cfg, now) && TilesCleanly(cfg, now) && Ordered(cfg, c, At(cfg, now))
    ensures CheckSpec(cfg, NO_FAULTS, c, now).1.Ok?
  {
    hide ReadRows, Expected, CheckSpec, NewRow, Overlap, NamesDistinct, InCalendar, SundayWeek, Step, NameAt,
         Aligned, RowOf,
         TilesCleanly, At, FirstIndex, Kept, Start;
    AlignedReads(cfg, c);
    CheckSucceeds(cfg, NO_FAULTS, c, now);
    CleanNames(cfg, now);
    ExpectedNamesDistinct(cfg, now);
    WithoutDistinct(Expected(cfg, now), RowNames(c.rows));
    forall p | p in Missing(cfg, c, now)
      ensures p.name !in c.tables
      ensures forall row :: row in c.rows && Kept(cfg, NO_FAULTS, now, row) ==>
        !Overlap(NewRow(p).lower, NewRow(p).upper, row)
    {
      var m := MissingStep(cfg, c, now, p);
      if p.name in c.tables {
        var j :| FirstIndex(cfg.interval) <= j < At(cfg, now) - Retained(cfg) && p.name == NameAt(cfg, j);
        NamesAt(cfg, j, m);
      }
      forall row | row in c.rows && Kept(cfg, NO_FAULTS, now, row)
        ensures !Overlap(NewRow(p).lower, NewRow(p).upper, row)
      {
        MissingClear(cfg, c, now, p, m, row);
      }
    }
  }

  lemma CleanNames(cfg: Config, now: Time)
    requires TilesCleanly(cfg, now)
    ensures NamesMeetNot(cfg, now)
  {
    hide CivilDate;
  }

  /** Every row lies before a missing partition, or in an interval that it does not cover. */
  lemma MissingClear(cfg: Config, c: Catalog, now: Time, p: Partition, m: int, row: PartitionResult)
    requires InCalendar(cfg, now) && TilesCleanly(cfg, now) && Ordered(cfg, c, At(cfg, now)) && row in c.rows
    requires m >= FirstIndex(cfg.interval) && InReach(cfg, m - At(cfg, now)) && p == Step(cfg, now, m - At(cfg, now))
    requires RowOf(cfg, m) !in c.rows
    ensures !Overlap(NewRow(p).lower, NewRow(p).upper, row)
  {
    hide NewRow, Overlap, InCalendar, SundayWeek, Step, NameAt, RowOf, TilesCleanly, FirstIndex, Overflows, Start,
         Index;
    CleanMeansNoOverflow(cfg, now);
    StepCovers(cfg, now, m - At(cfg, now));
    assert IsRow(cfg, row);
    var j :| j >= FirstIndex(cfg.interval) && row == RowOf(cfg, j);
    var s := if SundayWeek(cfg.interval, now) then 1 else 0;
    assert j < m;
    RowsApart(cfg, m + s, j);
  }

  /** A check in order that creates nothing on a Sunday leaves the catalogue in order, with all that is
      expected. */
  lemma OrderedStays(cfg: Config, c: Catalog, now: Time)
    requires InCalendar(cfg, now) && TilesCleanly(cfg, now) && Ordered(cfg, c, At(cfg, now))
    requires SundayWeek(cfg.interval, now) ==> Missing(cfg, c, now) == []
    ensures var c' := CheckSpec(cfg, NO_FAULTS, c, now).0;
            Ordered(cfg, c', At(cfg, now)) && NamesOf(Expected(cfg, now)) <= RowNames(c'.rows)
            && (cfg.retain > -1 ==> RowNames(c'.rows) == NamesOf(Expected(cfg, now)))
  {
    hide ReadRows, Expected, CheckSpec, NamesOf, InCalendar, SundayWeek, Step, NameAt, RowOf, TilesCleanly, At, Aligned,
         FirstIndex, Missing, RowNames;
    OrderedCheckSucceeds(cfg, c, now);
    CheckLeavesExpected(cfg, NO_FAULTS, c, now);
    CheckKeepsAligned(cfg, NO_FAULTS, c, now);
    var c' := CheckSpec(cfg, NO_FAULTS, c, now).0;
    var k := At(cfg, now);
    forall j | j >= FirstIndex(cfg.interval)
      ensures RowOf(cfg, j) in c'.rows <==> InReach(cfg, j - k) || (cfg.retain <= -1 && RowOf(cfg, j) in c.rows)
    {
      ExpectedSpan(cfg, now, j);
      NamedRow(cfg, c, j);
      NamedRow(cfg, c', j);
    }
    forall n | n in c'.tables
      ensures exists j :: FirstIndex(cfg.interval) <= j < k - Retained(cfg) && n == NameAt(cfg, j)
    {
      if n !in c.tables {
        DetachedBefore(cfg, c, now, n);
      }
    }
  }

  lemma DetachedBefore(cfg: Config, c: Catalog, now: Time, n: string)
    requires InCalendar(cfg, now) && TilesCleanly(cfg, now) && Ordered(cfg, c, At(cfg, now))
    requires n in RowNames(c.rows) && n !in NamesOf(Expected(cfg, now))
    ensures exists j :: FirstIndex(cfg.interval) <= j < At(cfg, now) - Retained(cfg) && n == NameAt(cfg, j)
  {
    hide Expected, NamesOf, InCalendar, RowOf, TilesCleanly, At, FirstIndex;
    var row :| row in c.rows && row.name == n;
    assert IsRow(cfg, row);
    var j :| j >= FirstIndex(cfg.interval) && row == RowOf(cfg, j);
    ExpectedSpan(cfg, now, j);
  }

  /** A Sunday of a weekly scheme on which a check is the first of its week. */
  predicate OpensOnSunday(cfg: Config, nows: seq<Time>, i: nat)
    requires i < |nows|
  {
    SundayWeek(cfg.interval, nows[i]) && (i == 0 || At(cfg, nows[i - 1]) < At(cfg, nows[i]))
  }

  predicate InOrder(cfg: Config, nows: seq<Time>) {
    (forall i :: 0 <= i < |nows| ==> InCalendar(cfg, nows[i]) && TilesCleanly(cfg, nows[i]))
    && forall i :: 0 < i < |nows| ==> nows[i - 1].jdn <= nows[i].jdn
  }

  /** No check but the last opens its week on a Sunday. */
  ghost predicate GoodSoFar(cfg: Config, nows: seq<Time>) {
    forall i :: 0 <= i < |nows| - 1 ==> !OpensOnSunday(cfg, nows, i)
  }

  lemma GoodPrefix(cfg: Config, nows: seq<Time>)
    requires |nows| >= 2
    ensures var n := |nows| - 1;
            GoodSoFar(cfg, nows) <==> GoodSoFar(cfg, nows[..n]) && !OpensOnSunday(cfg, nows[..n], n - 1)
  {
    hide SundayWeek, At;
    var n := |nows| - 1;
    assert forall i :: 0 <= i < n ==> OpensOnSunday(cfg, nows[..n], i) == OpensOnSunday(cfg, nows, i);
  }

  lemma EmptyOrdered(cfg: Config, k: int)
    ensures Ordered(cfg, Catalog([], {}), k)
  {}

  /** Two times of one interval expect the same names. */
  lemma SameExpected(cfg: Config, a: Time, b: Time)
    requires InCalendar(cfg, a) && InCalendar(cfg, b) && TilesCleanly(cfg, a) && TilesCleanly(cfg, b)
    requires At(cfg, a) == At(cfg, b)
    ensures NamesOf(Expected(cfg, a)) == NamesOf(Expected(cfg, b))
  {
    hide Expected, NameAt, TilesCleanly, Overflows, NamesOf, Index, InCalendar;
    CleanMeansNoOverflow(cfg, a);
    CleanMeansNoOverflow(cfg, b);
    forall n ensures n in NamesOf(Expected(cfg, a)) <==> n in NamesOf(Expected(cfg, b)) {
      ExpectedNames(cfg, a, n);
      ExpectedNames(cfg, b, n);
      assert forall i :: InReach(cfg, i) ==> StepIndex(cfg, a, i) == StepIndex(cfg, b, i);
    }
  }

  /** The last provided partition is missing from a catalogue whose rows all lie before it. */
  lemma NewestMissing(cfg: Config, c: Catalog, now: Time)
    requires InCalendar(cfg, now) && TilesCleanly(cfg, now) && Aligned(cfg, c)
    requires RowOf(cfg, At(cfg, now) + cfg.preProvision) !in c.rows
    ensures Missing(cfg, c, now) != []
  {
    hide Expected, NameAt, TilesCleanly, Aligned, RowOf, Overflows, Index, Step, NewPartition;
    CleanMeansNoOverflow(cfg, now);
    var i := cfg.preProvision;
    StepName(cfg, now, i);
    NamedRow(cfg, c, At(cfg, now) + i);
    ExpectedAreSteps(cfg, now, Step(cfg, now, i));
    assert Step(cfg, now, i) in Missing(cfg, c, now);
  }

  /** What is created on a Sunday of a weekly scheme cannot be read again. */
  lemma SundaySticks(cfg: Config, c: Catalog, now: Time)
    requires InCalendar(cfg, now) && SundayWeek(cfg.interval, now) && Missing(cfg, c, now) != []
    requires CheckSpec(cfg, NO_FAULTS, c, now).1.Ok?
    ensures ReadRows(cfg, CheckSpec(cfg, NO_FAULTS, c, now).0.rows).Err?
  {
    hide ReadRows, CreateAll, Expected, Pruned, CheckSpec, NewRow, InCalendar, SundayWeek;
    ReadableWhenOk(cfg, NO_FAULTS, c, now);
    CheckParts(cfg, NO_FAULTS, c, now);
    var p := Missing(cfg, c, now)[0];
    CreateAllNames(NO_FAULTS, Pruned(cfg, NO_FAULTS, c, now), Missing(cfg, c, now));
    SundayUnreadable(cfg, now, p);
    UnreadableRow(cfg, CheckSpec(cfg, NO_FAULTS, c, now).0.rows, NewRow(p));
  }

  /** What a check in order leaves, whether or not it opens its week on a Sunday. */
  ghost predicate Left(cfg: Config, c: Catalog, now: Time, opens: bool) {
    (opens ==> ReadRows(cfg, c.rows).Err?)
    && (!opens ==> Ordered(cfg, c, At(cfg, now)) && NamesOf(Expected(cfg, now)) <= RowNames(c.rows))
    && (cfg.retain > -1 ==> RowNames(c.rows) == NamesOf(Expected(cfg, now)))
  }

  lemma LastCheck(cfg: Config, c: Catalog, now: Time, opens: bool)
    requires InCalendar(cfg, now) && TilesCleanly(cfg, now) && Ordered(cfg, c, At(cfg, now))
    requires opens <==> SundayWeek(cfg.interval, now) && Missing(cfg, c, now) != []
    ensures CheckSpec(cfg, NO_FAULTS, c, now).1.Ok? && Left(cfg, CheckSpec(cfg, NO_FAULTS, c, now).0, now, opens)
  {
    hide ReadRows, Expected, CheckSpec, NamesOf, InCalendar, SundayWeek, TilesCleanly, At, Ordered, Missing, RowNames;
    OrderedCheckSucceeds(cfg, c, now);
    CheckLeavesExpected(cfg, NO_FAULTS, c, now);
    if opens {
      SundaySticks(cfg, c, now);
    } else {
      OrderedStays(cfg, c, now);
    }
  }

  /** The next check in order, after one that did not open its week on a Sunday. */
  lemma NextCheck(cfg: Config, c: Catalog, before: Time, now: Time)
    requires InCalendar(cfg, before) && TilesCleanly(cfg, before) && InCalendar(cfg, now) && TilesCleanly(cfg, now)
    requires before.jdn <= now.jdn && Left(cfg, c, before, false)
    ensures var opens := SundayWeek(cfg.interval, now) && At(cfg, before) < At(cfg, now);
            CheckSpec(cfg, NO_FAULTS, c, now).1.Ok? && Left(cfg, CheckSpec(cfg, NO_FAULTS, c, now).0, now, opens)
  {
    hide ReadRows, Expected, CheckSpec, NamesOf, SundayWeek, TilesCleanly, Index, RowNames, RowOf, FirstIndex,
         Aligned, NameAt;
    IndexInOrder(cfg.interval, before.jdn, now.jdn);
    OrderedLater(cfg, c, At(cfg, before), At(cfg, now));
    if At(cfg, before) < At(cfg, now) {
      NewestMissing(cfg, c, now);
    } else {
      SameExpected(cfg, before, now);
      AllNamed(Expected(cfg, now), RowNames(c.rows));
    }
    LastCheck(cfg, c, now, SundayWeek(cfg.interval, now) && At(cfg, before) < At(cfg, now));
  }

  lemma FirstCheck(cfg: Config, now: Time)
    requires InCalendar(cfg, now) && TilesCleanly(cfg, now)
    ensures var c, opens := Catalog([], {}), SundayWeek(cfg.interval, now);
            CheckSpec(cfg, NO_FAULTS, c, now).1.Ok? && Left(cfg, CheckSpec(cfg, NO_FAULTS, c, now).0, now, opens)
  {
    hide ReadRows, Expected, CheckSpec, SundayWeek, TilesCleanly, At, InCalendar, Ordered, RowOf, Left;
    var c := Catalog([], {});
    EmptyOrdered(cfg, At(cfg, now));
    NewestMissing(cfg, c, now);
    LastCheck(cfg, c, now, SundayWeek(cfg.interval, now));
  }

  /** With dropping on or off, a run of checks in the order of time from an empty catalogue succeeds
      throughout exactly when no check but the last is the first of its week on a Sunday of a weekly
      scheme; it leaves exactly the last check's partitions, and unreadable rows exactly when the last
      check opened its week on a Sunday. */
  lemma {:induction false} RunsSucceed(cfg: Config, nows: seq<Time>)
    requires InOrder(cfg, nows) && nows != []
    ensures var (c, ok) := Run(cfg, Catalog([], {}), nows);
            (ok <==> GoodSoFar(cfg, nows))
            && (ok ==> Left(cfg, c, nows[|nows| - 1], OpensOnSunday(cfg, nows, |nows| - 1)))
  {
    hide CheckSpec, InCalendar, TilesCleanly, SundayWeek, At, Left, GoodSoFar;
    var n := |nows| - 1;
    var now := nows[n];
    if n == 0 {
      assert Run(cfg, Catalog([], {}), nows[..n]) == (Catalog([], {}), true);
      NothingBefore(cfg, nows);
      FirstCheck(cfg, now);
    } else {
      var init := nows[..n];
      assert InOrder(cfg, init);
      RunsSucceed(cfg, init);
      GoodPrefix(cfg, nows);
      var (c, ok) := Run(cfg, Catalog([], {}), init);
      if ok {
        if OpensOnSunday(cfg, init, n - 1) {
          UnreadableFails(cfg, c, init[n - 1], now);
        } else {
          NextCheck(cfg, c, init[n - 1], now);
        }
      }
    }
  }

  lemma NothingBefore(cfg: Config, nows: seq<Time>)
    requires |nows| == 1
    ensures GoodSoFar(cfg, nows)
  {}

  lemma UnreadableFails(cfg: Config, c: Catalog, before: Time, now: Time)
    requires Left(cfg, c, before, true)
    ensures CheckSpec(cfg, NO_FAULTS, c, now).1.Err?
  {
    hide ReadRows, CheckSpec, Expected;
    ReadableWhenOk(cfg, NO_FAULTS, c, now);
  }

  // ---- A skipped quarter -------------------------------------------------------------------------------------------

  function Midnights(year: int, month: int, day: int): Time {
    Time(DateToJulian(year, month, day), 0)
  }

  /** Quarterly partitions, one provided, none retained, detached without dropping: checks on 30 March,
      31 March and 1 April. The second, stepping from 31 March, skips the second quarter and detaches
      its partition; the third cannot create it again under the name of the detached table. It has
      condemned the first quarter's audio, and keeps the first quarter's partition. */
  lemma SkippedQuarterBlocks(schema: string, year: int)
    requires year >= 1
    ensures var cfg := Config(schema, Quarterly, 0, 1, false);
            var (c1, r1, _) := CheckSpec(cfg, NO_FAULTS, Catalog([], {}), Midnights(year, 3, 30));
            var (c2, r2, _) := CheckSpec(cfg, NO_FAULTS, c1, Midnights(year, 3, 31));
            var (c3, r3, condemned) := CheckSpec(cfg, NO_FAULTS, c2, Midnights(year, 4, 1));
            r1.Ok? && r2.Ok? && r3.Err? && c3 == c2
            && NameAt(cfg, 4 * year) in condemned && NameAt(cfg, 4 * year) in RowNames(c3.rows)
  {
    hide CheckSpec, Expected, NamesOf, RowNames, NameAt, InCalendar, SundayWeek, NamesMeetNot, Midnights;
    var cfg := Config(schema, Quarterly, 0, 1, false);
    var q := 4 * year;
    QuarterDay(cfg, year, 3, 30);
    QuarterDay(cfg, year, 3, 31);
    QuarterDay(cfg, year, 4, 1);
    NamesAt(cfg, q, q + 1);
    NamesAt(cfg, q, q + 2);
    NamesAt(cfg, q + 1, q + 2);
    ThreeChecks(cfg, Midnights(year, 3, 30), Midnights(year, 3, 31), Midnights(year, 4, 1),
                NameAt(cfg, q), NameAt(cfg, q + 1), NameAt(cfg, q + 2));
  }

  lemma ThreeChecks(cfg: Config, t1: Time, t2: Time, t3: Time, a: string, b: string, d: string)
    requires cfg.retain > -1 && !cfg.drop && a != b && a != d && b != d
    requires forall t :: t in {t1, t2, t3} ==>
      InCalendar(cfg, t) && !SundayWeek(cfg.interval, t) && NamesMeetNot(cfg, t)
    requires NamesOf(Expected(cfg, t1)) == {a, b} && NamesOf(Expected(cfg, t2)) == {a, d}
        && NamesOf(Expected(cfg, t3)) == {b, d}
    ensures var (c1, r1, _) := CheckSpec(cfg, NO_FAULTS, Catalog([], {}), t1);
            var (c2, r2, _) := CheckSpec(cfg, NO_FAULTS, c1, t2);
            var (c3, r3, condemned) := CheckSpec(cfg, NO_FAULTS, c2, t3);
            r1.Ok? && r2.Ok? && r3.Err? && c3 == c2 && a in condemned && a in RowNames(c3.rows)
  {
    hide CheckSpec, Expected, NamesOf, RowNames, InCalendar, SundayWeek, NamesMeetNot, Aligned;
    var c0 := Catalog([], {});
    NothingThere(cfg);
    OneCheck(cfg, c0, t1);
    var c1 := CheckSpec(cfg, NO_FAULTS, c0, t1).0;
    assert {} - {a, b} == {} && c1.tables == {} && RowNames(c1.rows) == {a, b};
    OneCheck(cfg, c1, t2);
    var c2 := CheckSpec(cfg, NO_FAULTS, c1, t2).0;
    assert {a, b} - {a, d} == {b} && c2.tables == {b} && RowNames(c2.rows) == {a, d};
    OneCheck(cfg, c2, t3);
    var expected := NamesOf(Expected(cfg, t3));
    assert b in expected - RowNames(c2.rows) && b in c2.tables;
    assert a in RowNames(c2.rows) - expected;
    assert CheckSpec(cfg, NO_FAULTS, c0, t1).1.Ok?;
    assert CheckSpec(cfg, NO_FAULTS, c1, t2).1.Ok?;
    assert CheckSpec(cfg, NO_FAULTS, c2, t3).1.Err?;
    assert CheckSpec(cfg, NO_FAULTS, c2, t3).0 == c2;
    assert a in CheckSpec(cfg, NO_FAULTS, c2, t3).2;
  }

  lemma NothingThere(cfg: Config)
    ensures Aligned(cfg, Catalog([], {})) && RowNames(Catalog([], {}).rows) == {}
  {}

  /** A check off a Sunday that detaches without dropping, with distinct expected names. */
  lemma OneCheck(cfg: Config, c: Catalog, now: Time)
    requires Aligned(cfg, c) && InCalendar(cfg, now) && !SundayWeek(cfg.interval, now) && NamesMeetNot(cfg, now)
    requires cfg.retain > -1 && !cfg.drop
    ensures var expected := NamesOf(Expected(cfg, now));
            var (c', r, condemned) := CheckSpec(cfg, NO_FAULTS, c, now);
            (r.Ok? <==> expected - RowNames(c.rows) !! c.tables)
            && condemned == RowNames(c.rows) - expected
            && (r.Ok? ==> Aligned(cfg, c') && RowNames(c'.rows) == expected
                          && c'.tables == c.tables + (RowNames(c.rows) - expected))
            && (r.Err? ==> c' == c)
  {
    hide CheckSpec, Expected, InCalendar, ReadRows, Aligned, NamesDistinct, NamesMeetNot;
    ExpectedNamesDistinct(cfg, now);
    WithoutDistinct(Expected(cfg, now), RowNames(c.rows));
    CheckOffSunday(cfg, c, now);
    AlignedReads(cfg, c);
    CondemnsUnexpected(cfg, c, now);
    ReadableWhenOk(cfg, NO_FAULTS, c, now);
    assert NamesOf(Missing(cfg, c, now)) == NamesOf(Expected(cfg, now)) - RowNames(c.rows);
    if CheckSpec(cfg, NO_FAULTS, c, now).1.Ok? {
      CheckLeavesExpected(cfg, NO_FAULTS, c, now);
      CheckKeepsAligned(cfg, NO_FAULTS, c, now);
    }
  }

  /** The two quarters expected on a day at the turn of the first. */
  lemma QuarterDay(cfg: Config, year: int, month: int, day: int)
    requires cfg.interval.Quarterly? && cfg.retain == 0 && cfg.preProvision == 1 && year >= 1
    requires (month == 3 && 30 <= day <= 31) || (month == 4 && day == 1)
    ensures var now, q := Midnights(year, month, day), 4 * year + (month - 1) / 3;
            InCalendar(cfg, now) && !SundayWeek(cfg.interval, now) && NamesMeetNot(cfg, now)
            && NamesOf(Expected(cfg, now))
               == {NameAt(cfg, q), NameAt(cfg, if month == 3 && day == 31 then q + 2 else q + 1)}
  {
    hide DateToJulian, JulianToDate, Expected, NamesOf, NameAt;
    var now, d := Midnights(year, month, day), Date(year, month, day);
    YearOneDates(d);
    DateRoundTrip(d);
    assert CivilDate(now) == d;
    assert MonthIndex(d) / 3 == 4 * year + (month - 1) / 3;
    forall n ensures n in NamesOf(Expected(cfg, now)) <==>
      n == NameAt(cfg, StepIndex(cfg, now, 0)) || n == NameAt(cfg, StepIndex(cfg, now, 1))
    {
      ExpectedNames(cfg, now, n);
      assert InReach(cfg, 0) && InReach(cfg, 1);
    }
  }
}
