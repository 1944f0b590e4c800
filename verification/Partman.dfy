/**
 The partition manager (pkg/database/partman/partman.go): which partitions should exist, and the
 hourly check that creates the missing and prunes the unexpected.
 */
module Partman {
  import opened CivilTime
  import opened Intervals
  import opened PartitionNames

  datatype Config = Config(schema: string, interval: Interval, retain: int, preProvision: nat, drop: bool)

  // The parent table's partitions, and the tables that were detached but not dropped.
  datatype Catalog = Catalog(rows: seq<PartitionResult>, tables: set<string>)

  // Which operations fail on which partitions: the statements that sweep its calls before a prune, the
  // prune of its audio, which works outside the transaction, the statements that detach, drop or create
  // it, and the commit. A failed statement aborts its transaction. Of the failing audio prunes, some
  // had already condemned the audio.
  datatype Faults = Faults(sweep: set<string>, audio: set<string>, reached: set<string>, statements: set<string>,
                           commit: bool)

  const NO_FAULTS := Faults({}, {}, {}, {}, false)

  // ---- The partitions that should exist ------------------------------------------------------------

  function PrevPartition(p: Partition, i: int): Partition {
    SetName(p.(time := Prev(p.interval, p.time, i)))
  }

  function NextPartition(p: Partition, i: int): Partition {
    SetName(p.(time := Next(p.interval, p.time, i)))
  }

  function Past(cur: Partition, n: nat): (ps: seq<Partition>)
    ensures |ps| == n
  {
    if n == 0 then [] else Past(cur, n - 1) + [PrevPartition(cur, n)]
  }

  function Future(cur: Partition, n: nat): (ps: seq<Partition>)
    ensures |ps| == n
  {
    if n == 0 then [] else Future(cur, n - 1) + [NextPartition(cur, n)]
  }

  /** The current partition, the retained ones from the newest, and the provided ones. */
  function Expected(cfg: Config, now: Time): (ps: seq<Partition>)
    ensures |ps| == 1 + Retained(cfg) + cfg.preProvision
  {
    var cur := NewPartition(cfg.schema, cfg.interval, now);
    [cur] + Past(cur, Retained(cfg)) + Future(cur, cfg.preProvision)
  }

  /** The number of past partitions kept; -1 keeps all and provides none. */
  function Retained(cfg: Config): (n: int)
    ensures n >= 0
  {
    if cfg.retain > -1 then cfg.retain else 0
  }

  method RetentionPartitions(cfg: Config, cur: Partition) returns (ps: seq<Partition>)
    ensures ps == Past(cur, Retained(cfg))
  {
    hide PrevPartition;
    ps := [];
    var i := 1;
    while i <= cfg.retain
      invariant 1 <= i <= Retained(cfg) + 1
      invariant ps == Past(cur, i - 1)
      decreases cfg.retain - i
    {
      ps := ps + [PrevPartition(cur, i)];
      i := i + 1;
    }
  }

  method FuturePartitions(cfg: Config, cur: Partition) returns (ps: seq<Partition>)
    ensures ps == Future(cur, cfg.preProvision)
  {
    hide NextPartition;
    ps := [];
    for i := 1 to cfg.preProvision + 1
      invariant ps == Future(cur, i - 1)
    {
      ps := ps + [NextPartition(cur, i)];
    }
  }

  method ExpectedPartitions(cfg: Config, now: Time) returns (ps: seq<Partition>)
    ensures ps == Expected(cfg, now)
  {
    hide PrevPartition, NextPartition, NewPartition;
    var cur := NewPartition(cfg.schema, cfg.interval, now);
    ps := [cur];
    if cfg.retain > -1 {
      var retain := RetentionPartitions(cfg, cur);
      ps := ps + retain;
    }
    var future := FuturePartitions(cfg, cur);
    ps := ps + future;
  }

  // ---- Stepping away from now -------------------------------------------------------------------------

  /** The i-th partition from now: past ones have negative i. */
  function StepTime(cfg: Config, now: Time, i: int): Time {
    if i < 0 then Prev(cfg.interval, now, -i) else if i > 0 then Next(cfg.interval, now, i) else now
  }

  function StepIndex(cfg: Config, now: Time, i: int): int {
    Index(cfg.interval, now.jdn) + i + (if Overflows(cfg.interval, now, i) then 1 else 0)
  }

  /** Every provided partition begins in year 1 or later. */
  predicate InCalendar(cfg: Config, now: Time) {
    ValidTime(now) && Index(cfg.interval, now.jdn) - Retained(cfg) >= FirstIndex(cfg.interval)
  }

  predicate InReach(cfg: Config, i: int) {
    -Retained(cfg) <= i <= cfg.preProvision
  }

  lemma StepPlaces(cfg: Config, now: Time, i: int)
    requires InCalendar(cfg, now) && InReach(cfg, i)
    ensures var t := StepTime(cfg, now, i);
            ValidTime(t) && Index(cfg.interval, t.jdn) == StepIndex(cfg, now, i)
            && (SundayWeek(cfg.interval, t) <==> SundayWeek(cfg.interval, now))
  {
    hide Index, Next, Prev, Overflows, FirstIndex;
    StepByIndex(cfg.interval, now, i);
    NoOverflowAtHome(cfg.interval, now);
  }

  lemma NoOverflowAtHome(iv: Interval, t: Time)
    ensures !Overflows(iv, t, 0)
  {
    hide CivilDate;
  }

  /** The partition i steps from now. */
  function Step(cfg: Config, now: Time, i: int): Partition {
    NewPartition(cfg.schema, cfg.interval, StepTime(cfg, now, i))
  }

  /** The expected partitions are exactly the steps in reach. */
  lemma ExpectedAreSteps(cfg: Config, now: Time, p: Partition)
    ensures p in Expected(cfg, now) <==> exists i :: InReach(cfg, i) && p == Step(cfg, now, i)
  {
    hide Expected, Step;
    var e, r := Expected(cfg, now), Retained(cfg);
    if p in e {
      var j :| 0 <= j < |e| && e[j] == p;
      StepAt(cfg, now, j);
      assert InReach(cfg, if j <= r then -j else j - r);
    }
    if exists i :: InReach(cfg, i) && p == Step(cfg, now, i) {
      var i :| InReach(cfg, i) && p == Step(cfg, now, i);
      StepAt(cfg, now, if i <= 0 then -i else i + r);
    }
  }

  /** They are the current one, every provided one and, unless everything is kept, every retained one, each
      in its place. */
  lemma ExpectedInOrder(cfg: Config, now: Time)
    ensures var r := if cfg.retain < 0 then 0 else cfg.retain;
            |Expected(cfg, now)| == 1 + r + cfg.preProvision
            && Expected(cfg, now)[0] == Step(cfg, now, 0)
            && (forall i :: 1 <= i <= r ==> Expected(cfg, now)[i] == Step(cfg, now, -i))
            && (forall i :: 1 <= i <= cfg.preProvision ==> Expected(cfg, now)[r + i] == Step(cfg, now, i))
  {
    hide Expected, Step;
    forall j | 0 <= j < |Expected(cfg, now)|
      ensures Expected(cfg, now)[j] == Step(cfg, now, if j <= Retained(cfg) then -j else j - Retained(cfg))
    {
      StepAt(cfg, now, j);
    }
  }

  lemma StepAt(cfg: Config, now: Time, j: int)
    requires 0 <= j < |Expected(cfg, now)|
    ensures Expected(cfg, now)[j] == Step(cfg, now, if j <= Retained(cfg) then -j else j - Retained(cfg))
  {
    hide PrevPartition, NextPartition, NewPartition, Step;
    var cur, r := NewPartition(cfg.schema, cfg.interval, now), Retained(cfg);
    NeighbourIsStep(cfg, now, if j <= r then j else j - r);
    if 0 < j <= r {
      PastAt(cur, r, j - 1);
    } else if j > r {
      FutureAt(cur, cfg.preProvision, j - r - 1);
    }
  }

  lemma NeighbourIsStep(cfg: Config, now: Time, i: int)
    requires i >= 0
    ensures var cur := NewPartition(cfg.schema, cfg.interval, now);
            (i > 0 ==> PrevPartition(cur, i) == Step(cfg, now, -i) && NextPartition(cur, i) == Step(cfg, now, i))
            && (i == 0 ==> cur == Step(cfg, now, i))
  {
    hide SetName, Prev, Next, NewPartition;
    Rename(cfg, now, Prev(cfg.interval, now, i));
    Rename(cfg, now, Next(cfg.interval, now, i));
  }

  lemma Rename(cfg: Config, now: Time, t: Time)
    ensures var cur := NewPartition(cfg.schema, cfg.interval, now);
            SetName(cur.(time := t)) == NewPartition(cfg.schema, cfg.interval, t)
            && cur.interval == cfg.interval && cur.time == now
  {
    hide Suffix;
  }

  lemma {:induction false} PastAt(cur: Partition, n: nat, j: nat)
    requires j < n
    ensures Past(cur, n)[j] == PrevPartition(cur, j + 1)
  {
    hide PrevPartition;
    if j < n - 1 {
      PastAt(cur, n - 1, j);
    }
  }

  lemma {:induction false} FutureAt(cur: Partition, n: nat, j: nat)
    requires j < n
    ensures Future(cur, n)[j] == NextPartition(cur, j + 1)
  {
    hide NextPartition;
    if j < n - 1 {
      FutureAt(cur, n - 1, j);
    }
  }

  /** From which days the raw day of the month never overflows a quarter, with this much provided:
      31 March and 31 December only reach so far. */
  predicate TilesCleanly(cfg: Config, now: Time) {
    var d := CivilDate(now);
    !(cfg.interval.Quarterly? && d.day == 31
      && ((d.month == 3 && (cfg.preProvision >= 1 || Retained(cfg) >= 2))
          || (d.month == 12 && (cfg.preProvision >= 2 || Retained(cfg) >= 1))))
  }

  lemma CleanMeansNoOverflow(cfg: Config, now: Time)
    ensures TilesCleanly(cfg, now) <==> forall i :: InReach(cfg, i) ==> !Overflows(cfg.interval, now, i)
  {
    hide CivilDate;
    var d := CivilDate(now);
    if TilesCleanly(cfg, now) {
      forall i | InReach(cfg, i) ensures !Overflows(cfg.interval, now, i) {
        FourQuarters(d.month, i);
      }
    } else {
      var i := if d.month == 3 then (if cfg.preProvision >= 1 then 1 else -2)
               else (if cfg.preProvision >= 2 then 2 else -1);
      FourQuarters(d.month, i);
      assert InReach(cfg, i) && Overflows(cfg.interval, now, i);
    }
  }

  lemma FourQuarters(month: int, i: int)
    ensures (month == 3 ==> ((month + 3 * i) % 12 == 6 || (month + 3 * i) % 12 == 9 <==> i % 4 == 1 || i % 4 == 2))
    ensures (month == 12 ==> ((month + 3 * i) % 12 == 6 || (month + 3 * i) % 12 == 9 <==> i % 4 == 2 || i % 4 == 3))
  {
    var q, r := i / 4, i % 4;
    assert month + 3 * i == 12 * q + (month + 3 * r);
    assert (12 * q + (month + 3 * r)) % 12 == (month + 3 * r) % 12;
  }

  /** The expected ranges follow one another without gap or overlap, oldest first. */
  ghost predicate Contiguous(cfg: Config, now: Time) {
    forall i :: InReach(cfg, i) && InReach(cfg, i + 1) ==>
      Bounds(cfg.interval, Step(cfg, now, i).time).1 == Bounds(cfg.interval, Step(cfg, now, i + 1).time).0
  }

  lemma StepBounds(cfg: Config, now: Time, i: int)
    requires InCalendar(cfg, now) && InReach(cfg, i)
    ensures var k := StepIndex(cfg, now, i) + (if SundayWeek(cfg.interval, now) then 1 else 0);
            k >= FirstIndex(cfg.interval)
            && Bounds(cfg.interval, Step(cfg, now, i).time)
               == (StartTime(cfg.interval, k), StartTime(cfg.interval, k + 1))
  {
    hide Index, Bounds, Start, StepTime, StepIndex, Suffix;
    StepPlaces(cfg, now, i);
    BoundsByIndex(cfg.interval, StepTime(cfg, now, i));
  }

  /** The expected partitions tile one span exactly when no provided step overflows. */
  lemma ExpectedTile(cfg: Config, now: Time)
    requires InCalendar(cfg, now)
    ensures Contiguous(cfg, now) <==> TilesCleanly(cfg, now)
  {
    hide Index, Bounds, Start, Step, TilesCleanly, Overflows, FirstIndex;
    CleanMeansNoOverflow(cfg, now);
    var s := if SundayWeek(cfg.interval, now) then 1 else 0;
    forall i | InReach(cfg, i) && InReach(cfg, i + 1)
      ensures Bounds(cfg.interval, Step(cfg, now, i).time).1 == Bounds(cfg.interval, Step(cfg, now, i + 1).time).0
         <==> StepIndex(cfg, now, i) + 1 == StepIndex(cfg, now, i + 1)
    {
      StepBounds(cfg, now, i);
      StepBounds(cfg, now, i + 1);
      StartsDistinct(cfg.interval, StepIndex(cfg, now, i) + s + 1, StepIndex(cfg, now, i + 1) + s);
    }
    if Contiguous(cfg, now) {
      forall i | InReach(cfg, i) ensures !Overflows(cfg.interval, now, i) {
        SameOverflow(cfg, now, i);
        NoOverflowAtHome(cfg.interval, now);
      }
    }
  }

  /** When neighbours differ by one, every step overflows like step 0, that is, not at all. */
  lemma {:induction false} SameOverflow(cfg: Config, now: Time, i: int)
    requires InReach(cfg, i)
    requires forall j :: InReach(cfg, j) && InReach(cfg, j + 1) ==>
      StepIndex(cfg, now, j) + 1 == StepIndex(cfg, now, j + 1)
    ensures StepIndex(cfg, now, i) - i == StepIndex(cfg, now, 0)
    ensures Overflows(cfg.interval, now, i) == Overflows(cfg.interval, now, 0)
    decreases if i < 0 then -i else i
  {
    hide Index, Overflows;
    if i > 0 {
      SameOverflow(cfg, now, i - 1);
      assert InReach(cfg, i - 1) && InReach(cfg, i - 1 + 1);
    } else if i < 0 {
      SameOverflow(cfg, now, i + 1);
      assert InReach(cfg, i) && InReach(cfg, i + 1);
    }
  }

  predicate StepHolds(cfg: Config, now: Time, i: int) {
    var (lower, upper) := Bounds(cfg.interval, Step(cfg, now, i).time);
    AtOrBefore(lower, now) && StrictlyBefore(now, upper)
  }

  /** The span holds now, unless it is a Sunday of a weekly scheme that keeps no past week. */
  lemma SpanHoldsNow(cfg: Config, now: Time)
    requires InCalendar(cfg, now) && TilesCleanly(cfg, now)
    ensures (exists i :: InReach(cfg, i) && StepHolds(cfg, now, i))
       <==> !SundayWeek(cfg.interval, now) || Retained(cfg) >= 1
  {
    hide Index, Bounds, Start, Step, TilesCleanly, Overflows, FirstIndex;
    CleanMeansNoOverflow(cfg, now);
    var s := if SundayWeek(cfg.interval, now) then 1 else 0;
    forall i | InReach(cfg, i)
      ensures StepHolds(cfg, now, i) <==> i + s == 0
    {
      StepBounds(cfg, now, i);
      IndexUnique(cfg.interval, now.jdn, StepIndex(cfg, now, i) + s);
    }
    assert InReach(cfg, 0) && (Retained(cfg) >= 1 ==> InReach(cfg, -1));
  }

  predicate NamesDistinct(ps: seq<Partition>) {
    forall i, j :: 0 <= i < j < |ps| ==> ps[i].name != ps[j].name
  }

  /** How much may be provided before an overflowed quarter meets the next one's name. */
  predicate NamesMeetNot(cfg: Config, now: Time) {
    var d := CivilDate(now);
    !(cfg.interval.Quarterly? && d.day == 31
      && ((d.month == 3 && (cfg.preProvision >= 3 || Retained(cfg) >= 2))
          || (d.month == 12 && (cfg.preProvision >= 4 || Retained(cfg) >= 1))))
  }

  lemma StepNames(cfg: Config, now: Time, i: int, j: int)
    requires InCalendar(cfg, now) && InReach(cfg, i) && InReach(cfg, j)
    ensures Step(cfg, now, i).name == Step(cfg, now, j).name <==> StepIndex(cfg, now, i) == StepIndex(cfg, now, j)
  {
    hide Index, StepTime, StepIndex, NewPartition;
    StepPlaces(cfg, now, i);
    StepPlaces(cfg, now, j);
    NamesIdentify(cfg.schema, cfg.interval, StepTime(cfg, now, i), StepTime(cfg, now, j));
  }

  lemma MeetingSteps(cfg: Config, now: Time, i: int)
    ensures StepIndex(cfg, now, i) == StepIndex(cfg, now, i + 1)
       <==> Overflows(cfg.interval, now, i) && !Overflows(cfg.interval, now, i + 1)
    ensures cfg.interval.Quarterly? && CivilDate(now).day == 31 && CivilDate(now).month == 3 ==>
              (Overflows(cfg.interval, now, i) && !Overflows(cfg.interval, now, i + 1) <==> i % 4 == 2)
    ensures cfg.interval.Quarterly? && CivilDate(now).day == 31 && CivilDate(now).month == 12 ==>
              (Overflows(cfg.interval, now, i) && !Overflows(cfg.interval, now, i + 1) <==> i % 4 == 3)
  {
    hide CivilDate, Index;
    FourQuarters(CivilDate(now).month, i);
    FourQuarters(CivilDate(now).month, i + 1);
  }

  /** Expected names are pairwise distinct exactly when no overflowed quarter meets the next. */
  lemma ExpectedNamesDistinct(cfg: Config, now: Time)
    requires InCalendar(cfg, now)
    ensures NamesDistinct(Expected(cfg, now)) <==> NamesMeetNot(cfg, now)
  {
    hide Index, Step, StepIndex, Overflows, Expected, CivilDate;
    var e, r := Expected(cfg, now), Retained(cfg);
    if NamesMeetNot(cfg, now) {
      forall a, b | 0 <= a < b < |e| ensures e[a].name != e[b].name {
        StepAt(cfg, now, a);
        StepAt(cfg, now, b);
        var i := if a <= r then -a else a - r;
        var j := if b <= r then -b else b - r;
        StepsApart(cfg, now, if i < j then i else j, if i < j then j else i);
        StepNames(cfg, now, i, j);
      }
    } else {
      var d := CivilDate(now);
      var i := if d.month == 3 then (if r >= 2 then -2 else 2) else (if r >= 1 then -1 else 3);
      MeetingSteps(cfg, now, i);
      StepNames(cfg, now, i, i + 1);
      var a := if i <= 0 then -i else i + r;
      var b := if i + 1 <= 0 then -(i + 1) else i + 1 + r;
      StepAt(cfg, now, a);
      StepAt(cfg, now, b);
      assert e[a].name == e[b].name;
    }
  }

  /** Where no neighbours meet, the numbers of the steps grow strictly. */
  lemma {:induction false} StepsApart(cfg: Config, now: Time, i: int, j: int)
    requires NamesMeetNot(cfg, now) && InReach(cfg, i) && InReach(cfg, j) && i < j
    ensures StepIndex(cfg, now, i) < StepIndex(cfg, now, j)
    decreases j - i
  {
    hide Index, CivilDate;
    MeetingSteps(cfg, now, i);
    if i + 1 < j {
      StepsApart(cfg, now, i + 1, j);
    }
    hide Overflows;
  }

  // ---- Comparing --------------------------------------------------------------------------------------

  function NamesOf(ps: seq<Partition>): set<string> {
    set p | p in ps :: p.name
  }

  /** The partitions whose names are not in the set, in order. */
  function Without(ps: seq<Partition>, names: set<string>): (r: seq<Partition>)
    ensures forall p :: p in r <==> p in ps && p.name !in names
  {
    if ps == [] then []
    else Without(ps[..|ps| - 1], names) + (if ps[|ps| - 1].name in names then [] else [ps[|ps| - 1]])
  }

  lemma OneMore(ps: seq<Partition>, i: nat, names: set<string>)
    requires i < |ps|
    ensures NamesOf(ps[..i + 1]) == NamesOf(ps[..i]) + {ps[i].name}
    ensures Without(ps[..i + 1], names) == Without(ps[..i], names) + (if ps[i].name in names then [] else [ps[i]])
  {
    assert ps[..i + 1] == ps[..i] + [ps[i]];
    assert ps[..i + 1][..i] == ps[..i];
  }

  method ByName(tables: seq<Partition>) returns (existing: map<string, Partition>)
    ensures existing.Keys == NamesOf(tables)
  {
    hide NamesOf, Without;
    NoNames(tables);
    existing := map[];
    for i := 0 to |tables|
      invariant existing.Keys == NamesOf(tables[..i])
    {
      OneMore(tables, i, {});
      existing := existing[tables[i].name := tables[i]];
    }
    assert tables[..|tables|] == tables;
  }

  method FindExpected(existing: map<string, Partition>, expectedTables: seq<Partition>)
    returns (expectedAndExists: set<string>, missing: seq<Partition>)
    ensures expectedAndExists == NamesOf(expectedTables) * existing.Keys
    ensures missing == Without(expectedTables, existing.Keys)
  {
    hide NamesOf, Without;
    NoNames(expectedTables);
    NoneWithout(expectedTables, existing.Keys);
    expectedAndExists, missing := {}, [];
    for i := 0 to |expectedTables|
      invariant expectedAndExists == NamesOf(expectedTables[..i]) * existing.Keys
      invariant missing == Without(expectedTables[..i], existing.Keys)
    {
      OneMore(expectedTables, i, existing.Keys);
      if expectedTables[i].name in existing {
        expectedAndExists := expectedAndExists + {expectedTables[i].name};
      } else {
        missing := missing + [expectedTables[i]];
      }
    }
    assert expectedTables[..|expectedTables|] == expectedTables;
  }

  method FindUnexpected(existingTables: seq<Partition>, expectedAndExists: set<string>)
    returns (unexpected: seq<Partition>)
    ensures unexpected == Without(existingTables, expectedAndExists)
  {
    hide NamesOf, Without;
    NoneWithout(existingTables, expectedAndExists);
    unexpected := [];
    for i := 0 to |existingTables|
      invariant unexpected == Without(existingTables[..i], expectedAndExists)
    {
      OneMore(existingTables, i, expectedAndExists);
      if existingTables[i].name !in expectedAndExists {
        unexpected := unexpected + [existingTables[i]];
      }
    }
    assert existingTables[..|existingTables|] == existingTables;
  }

  lemma NoNames(ps: seq<Partition>)
    ensures NamesOf(ps[..0]) == {}
  {}

  lemma NoneWithout(ps: seq<Partition>, names: set<string>)
    ensures Without(ps[..0], names) == []
  {}

  /** Names that no partition of the list bears make no difference. */
  lemma WithoutOwn(ps: seq<Partition>, names: set<string>)
    ensures Without(ps, names * NamesOf(ps)) == Without(ps, names)
  {
    WithoutSame(ps, names * NamesOf(ps), names);
  }

  lemma {:induction false} WithoutSame(ps: seq<Partition>, a: set<string>, b: set<string>)
    requires forall p :: p in ps ==> (p.name in a <==> p.name in b)
    ensures Without(ps, a) == Without(ps, b)
  {
    if ps != [] {
      WithoutSame(ps[..|ps| - 1], a, b);
    }
  }

  method ComparePartitions(existingTables: seq<Partition>, expectedTables: seq<Partition>)
    returns (unexpected: seq<Partition>, missing: seq<Partition>)
    ensures unexpected == Without(existingTables, NamesOf(expectedTables))
    ensures missing == Without(expectedTables, NamesOf(existingTables))
  {
    hide NamesOf, Without;
    var existing := ByName(existingTables);
    var expectedAndExists, m := FindExpected(existing, expectedTables);
    unexpected := FindUnexpected(existingTables, expectedAndExists);
    WithoutOwn(existingTables, NamesOf(expectedTables));
    missing := m;
  }

  // ---- Reading, pruning, creating ----------------------------------------------------------------------

  function ReadRow(cfg: Config, row: PartitionResult): (r: Result<Partition>)
    ensures r.Ok? ==> r.value.name == row.name
  {
    if row.schema != cfg.schema then Err(WrongSchema)
    else
      var r := VerifyPartName(row);
      if r.Ok? && r.value.interval != cfg.interval then Err(DifferentInterval) else r
  }

  /** The rows read in order, or the first error. */
  function ReadRows(cfg: Config, rows: seq<PartitionResult>): (r: Result<seq<Partition>>) {
    if rows == [] then Ok([])
    else
      var rest := ReadRows(cfg, rows[..|rows| - 1]);
      if rest.Err? then rest
      else
        match ReadRow(cfg, rows[|rows| - 1])
        case Err(e) => Err(e)
        case Ok(p) => Ok(rest.value + [p])
  }

  lemma {:induction false} ReadRowsShape(cfg: Config, rows: seq<PartitionResult>)
    ensures var r := ReadRows(cfg, rows);
            (r.Ok? <==> forall i :: 0 <= i < |rows| ==> ReadRow(cfg, rows[i]).Ok?)
            && (r.Ok? ==> |r.value| == |rows| && forall i :: 0 <= i < |rows| ==>
              r.value[i] == ReadRow(cfg, rows[i]).value)
  {
    hide ReadRow;
    if rows != [] {
      ReadRowsShape(cfg, rows[..|rows| - 1]);
    }
  }

  method ExistingPartitions(cfg: Config, parts: seq<PartitionResult>) returns (r: Result<seq<Partition>>)
    ensures r == ReadRows(cfg, parts)
  {
    var existing: seq<Partition> := [];
    for i := 0 to |parts|
      invariant ReadRows(cfg, parts[..i]) == Ok(existing)
    {
      assert parts[..i + 1][..i] == parts[..i];
      var v := parts[i];
      if v.schema != cfg.schema {
        ErrorStays(cfg, parts, i + 1);
        return Err(WrongSchema);
      }
      match VerifyPartName(v)
      case Err(e) =>
        ErrorStays(cfg, parts, i + 1);
        return Err(e);
      case Ok(p) =>
        if p.interval != cfg.interval {
          ErrorStays(cfg, parts, i + 1);
          return Err(DifferentInterval);
        }
        existing := existing + [p];
    }
    assert parts[..|parts|] == parts;
    r := Ok(existing);
  }

  lemma {:induction false} ErrorStays(cfg: Config, rows: seq<PartitionResult>, i: nat)
    requires i <= |rows| && ReadRows(cfg, rows[..i]).Err?
    ensures ReadRows(cfg, rows) == ReadRows(cfg, rows[..i])
    decreases |rows| - i
  {
    hide ReadRow;
    if i == |rows| {
      assert rows[..i] == rows;
    } else {
      assert rows[..i + 1][..i] == rows[..i];
      ErrorStays(cfg, rows, i + 1);
    }
  }

  function RowNames(rows: seq<PartitionResult>): set<string> {
    set row | row in rows :: row.name
  }

  /** Detaching removes the row of a name. */
  function RemoveRow(rows: seq<PartitionResult>, name: string): (r: seq<PartitionResult>)
    ensures forall row :: row in r <==> row in rows && row.name != name
    ensures |r| <= |rows|
    ensures name !in RowNames(rows) ==> r == rows
  {
    if rows == [] then []
    else RemoveRow(rows[..|rows| - 1], name) + (if rows[|rows| - 1].name == name then [] else [rows[|rows| - 1]])
  }

  // A transaction: its view of the catalogue, whether a statement failed in it, and, outside of it, the
  // partitions whose audio was condemned: journalled for deletion and ruled, or deleted.
  datatype Tx = Tx(catalog: Catalog, aborted: bool, condemned: set<string>)

  /** prunePartition: sweep the calls, prune the audio, detach, and drop if configured. */
  function Prune(cfg: Config, faults: Faults, tx: Tx, name: string): (r: Tx) {
    if tx.aborted then tx
    else if name in faults.sweep then tx.(aborted := true)
    else if name in faults.audio then
      if name in faults.reached then tx.(condemned := tx.condemned + {name}) else tx
    else if name in faults.statements then tx.(aborted := true, condemned := tx.condemned + {name})
    else
      var c := tx.catalog;
      Tx(Catalog(RemoveRow(c.rows, name), if cfg.drop then c.tables else c.tables + {name}), false,
         tx.condemned + {name})
  }

  function PruneAll(cfg: Config, faults: Faults, tx: Tx, ps: seq<Partition>): (r: Tx)
    decreases |ps|
  {
    if ps == [] then tx else PruneAll(cfg, faults, Prune(cfg, faults, tx, ps[0].name), ps[1..])
  }

  predicate Overlap(lower: Time, upper: Time, row: PartitionResult) {
    StrictlyBefore(lower, row.upper) && StrictlyBefore(row.lower, upper)
  }

  /** CREATE TABLE ... PARTITION OF: refused for a taken name or an overlapping range. */
  predicate CanCreate(c: Catalog, p: Partition) {
    var (lower, upper) := Bounds(p.interval, p.time);
    p.name !in RowNames(c.rows) && p.name !in c.tables
    && forall row :: row in c.rows ==> !Overlap(lower, upper, row)
  }

  function NewRow(p: Partition): PartitionResult {
    var (lower, upper) := Bounds(p.interval, p.time);
    PartitionResult(CALLS_TABLE, p.schema, p.name, lower, upper)
  }

  function Create(faults: Faults, tx: Tx, p: Partition): Tx {
    if tx.aborted || p.name in faults.statements || !CanCreate(tx.catalog, p) then tx.(aborted := true)
    else tx.(catalog := tx.catalog.(rows := tx.catalog.rows + [NewRow(p)]))
  }

  /** The missing partitions created in order, up to the first failure. */
  function CreateAll(faults: Faults, tx: Tx, ps: seq<Partition>): (r: Tx)
    decreases |ps|
  {
    if ps == [] then tx else CreateAll(faults, Create(faults, tx, ps[0]), ps[1..])
  }

  lemma {:induction false} AbortedStays(faults: Faults, tx: Tx, ps: seq<Partition>)
    requires tx.aborted
    ensures CreateAll(faults, tx, ps) == tx
    decreases |ps|
  {
    hide CanCreate, NewRow;
    if ps != [] {
      AbortedStays(faults, tx, ps[1..]);
    }
  }

  /** One check, as a whole: the catalogue, the result, and the partitions whose audio it condemned. */
  function CheckSpec(cfg: Config, faults: Faults, c: Catalog, now: Time): (r: (Catalog, Result<()>, set<string>)) {
    match ReadRows(cfg, c.rows)
    case Err(e) => (c, Err(e), {})
    case Ok(existing) =>
      var expected := Expected(cfg, now);
      var unexpected := Without(existing, NamesOf(expected));
      var missing := Without(expected, NamesOf(existing));
      var tx := Begin(c);
      var pruned := if cfg.retain > -1 then PruneAll(cfg, faults, tx, unexpected) else tx;
      var made := CreateAll(faults, pruned, missing);
      if made.aborted || faults.commit then (c, Err(Database), pruned.condemned)
      else (made.catalog, Ok(()), pruned.condemned)
  }

  function Begin(c: Catalog): Tx {
    Tx(c, false, {})
  }

  class Manager {
    const cfg: Config
    var catalog: Catalog
    var condemned: set<string>

    constructor (cfg: Config, catalog: Catalog)
      ensures this.cfg == cfg && this.catalog == catalog && condemned == {}
    {
      this.cfg := cfg;
      this.catalog := catalog;
      condemned := {};
    }

    /** Check, in one transaction: an error leaves the catalogue as it was, but not the audio. */
    method Check(now: Time, faults: Faults) returns (r: Result<()>)
      modifies this
      ensures var s := CheckSpec(cfg, faults, old(catalog), now);
              catalog == s.0 && r == s.1 && condemned == old(condemned) + s.2
    {
      hide Create, Prune, Expected, ReadRows, Begin;
      var read := ExistingPartitions(cfg, catalog.rows);
      if read.Err? {
        return Err(read.error);
      }
      var existing := read.value;
      var expected := ExpectedPartitions(cfg, now);
      var unexpected, missing := ComparePartitions(existing, expected);
      var tx := Begin(catalog);
      if cfg.retain > -1 {
        for i := 0 to |unexpected|
          invariant PruneAll(cfg, faults, tx, unexpected[i..]) == PruneAll(cfg, faults, Begin(catalog), unexpected)
        {
          assert unexpected[i..][1..] == unexpected[i + 1..];
          tx := Prune(cfg, faults, tx, unexpected[i].name);
        }
      }
      condemned := condemned + tx.condemned;
      ghost var pruned := tx;
      for i := 0 to |missing|
        invariant CreateAll(faults, tx, missing[i..]) == CreateAll(faults, pruned, missing)
      {
        assert missing[i..][1..] == missing[i + 1..];
        tx := Create(faults, tx, missing[i]);
        if tx.aborted {
          AbortedStays(faults, tx, missing[i + 1..]);
          return Err(Database);
        }
      }
      if tx.aborted || faults.commit {
        return Err(Database);
      }
      catalog := tx.catalog;
      r := Ok(());
    }
  }
}
