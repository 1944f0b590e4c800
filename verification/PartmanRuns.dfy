/**
 What the partition manager's checks leave behind, over single checks and over runs of them.
 */
module PartmanRuns {
  import opened CivilTime
  import opened Intervals
  import opened PartitionNames
  import opened Partman
  import GoStrings
  import IsoWeek

  // ---- What a check reads ----------------------------------------------------------------------------

  /** The row is of the configured schema, its bounds are in order, and its name shows, for the configured
      kind of interval, numbers that mean its lower bound. */
  ghost predicate Readable(cfg: Config, row: PartitionResult) {
    row.schema == cfg.schema && NamedAs(cfg.interval, row)
  }

  /** A catalogue is read exactly when each of its rows is readable, and then row by row. */
  lemma ReadsExactly(cfg: Config, rows: seq<PartitionResult>)
    ensures var r := ReadRows(cfg, rows);
            (r.Ok? <==> forall i :: 0 <= i < |rows| ==> Readable(cfg, rows[i]))
            && (r.Ok? ==> |r.value| == |rows| && forall i :: 0 <= i < |rows| ==>
                  r.value[i] == Partition(rows[i].parent, cfg.schema, rows[i].name, cfg.interval, rows[i].lower))
  {
    hide ReadRow, Readable, ReadRows;
    ReadRowsShape(cfg, rows);
    forall i | 0 <= i < |rows|
      ensures ReadRow(cfg, rows[i]).Ok? <==> Readable(cfg, rows[i])
      ensures ReadRow(cfg, rows[i]).Ok? ==>
        ReadRow(cfg, rows[i]).value
        == Partition(rows[i].parent, cfg.schema, rows[i].name, cfg.interval, rows[i].lower)
    {
      RowReadable(cfg, rows[i]);
    }
  }

  lemma RowReadable(cfg: Config, row: PartitionResult)
    ensures ReadRow(cfg, row).Ok? <==> Readable(cfg, row)
    ensures ReadRow(cfg, row).Ok? ==>
      ReadRow(cfg, row).value == Partition(row.parent, cfg.schema, row.name, cfg.interval, row.lower)
  {
    hide VerifyPartName, NamedAs;
    AcceptedExactly(row, cfg.interval);
  }

  /** A row that cannot be read stops the check before it touches anything. */
  lemma UnreadableStops(cfg: Config, faults: Faults, c: Catalog, now: Time, row: PartitionResult)
    requires row in c.rows && !Readable(cfg, row)
    ensures var (c', r, condemned) := CheckSpec(cfg, faults, c, now); c' == c && r.Err? && condemned == {}
  {
    hide ReadRows, PruneAll, CreateAll, Expected, Readable;
    ReadsExactly(cfg, c.rows);
    var i :| 0 <= i < |c.rows| && c.rows[i] == row;
  }

  /** The first such row decides what is reported. */
  lemma FirstUnreadable(cfg: Config, faults: Faults, c: Catalog, now: Time, i: nat)
    requires i < |c.rows| && !Readable(cfg, c.rows[i]) && forall j :: 0 <= j < i ==> Readable(cfg, c.rows[j])
    ensures var r, row := CheckSpec(cfg, faults, c, now).1, c.rows[i];
            r.Err?
            && (r.error == WrongSchema <==> row.schema != cfg.schema)
            && (r.error == DifferentInterval <==>
                  row.schema == cfg.schema && exists iv :: iv != cfg.interval && NamedAs(iv, row))
  {
    hide ReadRows, PruneAll, CreateAll, Expected, Readable, NamedAs, VerifyPartName;
    var row := c.rows[i];
    RowReadable(cfg, row);
    ReadsExactly(cfg, c.rows[..i]);
    assert c.rows[..i + 1][..i] == c.rows[..i];
    assert ReadRows(cfg, c.rows[..i + 1]) == Err(ReadRow(cfg, row).error) by {
      ReadsNext(cfg, c.rows, i);
    }
    ErrorStays(cfg, c.rows, i + 1);
    VerifyErrors(row);
    forall iv ensures (VerifyPartName(row).Ok? && VerifyPartName(row).value.interval == iv) <==> NamedAs(iv, row) {
      AcceptedExactly(row, iv);
    }
    assert VerifyPartName(row).Ok? ==> NamedAs(VerifyPartName(row).value.interval, row);
    assert ReadRow(cfg, row).Err? && CheckSpec(cfg, faults, c, now).1 == Err(ReadRow(cfg, row).error);
  }

  lemma ReadsNext(cfg: Config, rows: seq<PartitionResult>, i: nat)
    requires i < |rows| && ReadRows(cfg, rows[..i]).Ok? && ReadRow(cfg, rows[i]).Err?
    ensures ReadRows(cfg, rows[..i + 1]) == Err(ReadRow(cfg, rows[i]).error)
  {
    hide ReadRow;
    assert rows[..i + 1][..i] == rows[..i];
  }

  lemma VerifyErrors(row: PartitionResult)
    ensures VerifyPartName(row).Err? ==>
      VerifyPartName(row).error != WrongSchema && VerifyPartName(row).error != DifferentInterval
  {
    hide GoStrings.Split, GoStrings.Atoi, GoDate, IsoWeek.StartDate;
  }

  /** The partition of another kind of interval, under its own name and start, stops the check, and so
      does any row of another schema. */
  lemma ForeignRowStops(cfg: Config, faults: Faults, c: Catalog, now: Time, row: PartitionResult, iv: Interval, k: int)
    requires row in c.rows
    requires row.schema != cfg.schema
          || (iv != cfg.interval && k >= FirstIndex(iv) && row.lower == StartTime(iv, k)
              && !StrictlyBefore(row.upper, row.lower)
              && row.name == NewPartition(cfg.schema, iv, StartTime(iv, k)).name)
    ensures var (c', r, condemned) := CheckSpec(cfg, faults, c, now); c' == c && r.Err? && condemned == {}
  {
    hide CheckSpec, Start, NewPartition, Names, Index;
    if row.schema == cfg.schema {
      IndexOfStart(iv, k);
      var own := PartitionResult(CALLS_TABLE, cfg.schema, row.name, row.lower, row.upper);
      NamesParseBack(cfg.schema, iv, StartTime(iv, k), row.lower, row.upper);
      AcceptedExactly(own, iv);
      var text, f :| Names(iv, own, text, f);
      assert Names(iv, row, text, f) by {
        SameNames(iv, own, row, text, f);
      }
      AcceptedExactly(row, iv);
      AcceptedExactly(row, cfg.interval);
    }
    UnreadableStops(cfg, faults, c, now, row);
  }

  lemma SameNames(iv: Interval, a: PartitionResult, b: PartitionResult, text: string, f: seq<int>)
    requires Names(iv, a, text, f) && b.name == a.name && b.lower == a.lower
    ensures Names(iv, b, text, f)
  {
    hide EndsIn, Spells, Meaning;
  }

  // ---- One successful check ------------------------------------------------------------------------

  lemma ReadNames(cfg: Config, rows: seq<PartitionResult>)
    requires ReadRows(cfg, rows).Ok?
    ensures NamesOf(ReadRows(cfg, rows).value) == RowNames(rows)
  {
    hide ReadRows;
    ReadRowsShape(cfg, rows);
    var ps := ReadRows(cfg, rows).value;
    forall n | n in RowNames(rows) ensures n in NamesOf(ps) {
      var row :| row in rows && row.name == n;
      var i :| 0 <= i < |rows| && rows[i] == row;
      assert ps[i] in ps && ps[i].name == n;
    }
  }

  /** Pruning removes exactly the named rows whose audio could be pruned, and condemns audio only of the
      named; a statement that fails on its way aborts it. */
  lemma {:induction false} PruneAllNames(cfg: Config, faults: Faults, tx: Tx, ps: seq<Partition>)
    ensures var r := PruneAll(cfg, faults, tx, ps);
            (r.aborted <==>
               tx.aborted || !(NamesOf(ps) !! faults.sweep) || !(NamesOf(ps) - faults.audio !! faults.statements))
            && (!r.aborted ==>
                  (forall row :: row in r.catalog.rows <==>
                     row in tx.catalog.rows && row.name !in NamesOf(ps) - faults.audio)
                  && r.catalog.tables == tx.catalog.tables + (if cfg.drop then {} else NamesOf(ps) - faults.audio)
                  && r.condemned == tx.condemned + (NamesOf(ps) - (faults.audio - faults.reached)))
            && tx.condemned <= r.condemned <= tx.condemned + NamesOf(ps)
    decreases |ps|
  {
    hide NamesOf, RemoveRow, RowNames;
    if ps == [] {
      NoNames(ps);
    } else {
      NamesFront(ps);
      PruneAllNames(cfg, faults, Prune(cfg, faults, tx, ps[0].name), ps[1..]);
    }
  }

  lemma NamesFront(ps: seq<Partition>)
    requires ps != []
    ensures NamesOf(ps) == {ps[0].name} + NamesOf(ps[1..])
  {}

  lemma NewRowName(p: Partition)
    ensures NewRow(p).name == p.name
  {
    hide Bounds;
  }

  lemma {:induction false} CreateAllNames(faults: Faults, tx: Tx, ps: seq<Partition>)
    requires !CreateAll(faults, tx, ps).aborted
    ensures var r := CreateAll(faults, tx, ps);
            RowNames(r.catalog.rows) == RowNames(tx.catalog.rows) + NamesOf(ps)
            && tx.catalog.rows <= r.catalog.rows && r.catalog.tables == tx.catalog.tables
            && (forall p :: p in ps ==> NewRow(p) in r.catalog.rows)
            && (forall row :: row in r.catalog.rows ==>
              row in tx.catalog.rows || exists p :: p in ps && row == NewRow(p))
            && !tx.aborted
    decreases |ps|
  {
    hide CanCreate, Bounds;
    if ps != [] {
      var tx' := Create(faults, tx, ps[0]);
      if tx.aborted {
        AbortedStays(faults, tx', ps[1..]);
      }
      assert NamesOf(ps) == {ps[0].name} + NamesOf(ps[1..]);
      CreateAllNames(faults, tx', ps[1..]);
      assert NewRow(ps[0]).name == ps[0].name;
      assert NewRow(ps[0]) in tx'.catalog.rows;
    }
  }

  lemma KeptNames(rows: seq<PartitionResult>, kept: seq<PartitionResult>, names: set<string>)
    requires forall row :: row in kept <==> row in rows && row.name !in names
    ensures RowNames(kept) == RowNames(rows) - names
  {}

  /** The rows whose partitions a check leaves alone: the expected, and those whose audio it could not
      prune; all, when everything is retained. */
  predicate Kept(cfg: Config, faults: Faults, now: Time, row: PartitionResult) {
    cfg.retain > -1 ==> row.name in NamesOf(Expected(cfg, now)) + faults.audio
  }

  /** The names a check finds missing. */
  function Missing(cfg: Config, c: Catalog, now: Time): seq<Partition> {
    Without(Expected(cfg, now), RowNames(c.rows))
  }

  /** A check's prune, on the rows and tables. */
  function Pruned(cfg: Config, faults: Faults, c: Catalog, now: Time): Tx
    requires ReadRows(cfg, c.rows).Ok?
  {
    if cfg.retain > -1
    then PruneAll(cfg, faults, Begin(c), Without(ReadRows(cfg, c.rows).value, NamesOf(Expected(cfg, now))))
    else Begin(c)
  }

  /** A check whose rows can be read prunes and then creates what is missing. */
  lemma CheckParts(cfg: Config, faults: Faults, c: Catalog, now: Time)
    requires ReadRows(cfg, c.rows).Ok?
    ensures var pruned := Pruned(cfg, faults, c, now);
            var made := CreateAll(faults, pruned, Missing(cfg, c, now));
            CheckSpec(cfg, faults, c, now)
            == (if made.aborted || faults.commit then (c, Err(Database), pruned.condemned)
                else (made.catalog, Ok(()), pruned.condemned))
  {
    hide ReadRows, PruneAll, CreateAll, Expected;
    ReadNames(cfg, c.rows);
  }

  lemma PrunedParts(cfg: Config, faults: Faults, c: Catalog, now: Time)
    requires ReadRows(cfg, c.rows).Ok?
    ensures var pruned, expected := Pruned(cfg, faults, c, now), NamesOf(Expected(cfg, now));
            (pruned.aborted <==>
               cfg.retain > -1
               && (!(RowNames(c.rows) - expected !! faults.sweep)
                   || !(RowNames(c.rows) - expected - faults.audio !! faults.statements)))
            && (!pruned.aborted ==>
                  (forall row :: row in pruned.catalog.rows <==> row in c.rows && Kept(cfg, faults, now, row))
                  && pruned.catalog.tables
                     == c.tables + (if cfg.drop || cfg.retain <= -1 then {}
                                    else RowNames(c.rows) - expected - faults.audio)
                  && pruned.condemned
                     == (if cfg.retain <= -1 then {}
                         else RowNames(c.rows) - expected - (faults.audio - faults.reached)))
            && pruned.condemned <= RowNames(c.rows) - expected
  {
    hide ReadRows, PruneAll, Expected;
    if cfg.retain > -1 {
      ReadNames(cfg, c.rows);
      var existing := ReadRows(cfg, c.rows).value;
      var unexpected := Without(existing, NamesOf(Expected(cfg, now)));
      assert NamesOf(unexpected) == RowNames(c.rows) - NamesOf(Expected(cfg, now));
      PruneAllNames(cfg, faults, Begin(c), unexpected);
    }
  }

  /** A successful check leaves exactly the expected partitions and those whose audio it could not prune,
      or, when everything is retained, adds exactly the missing ones; what it detaches without dropping
      stays a table. */
  lemma CheckLeavesExpected(cfg: Config, faults: Faults, c: Catalog, now: Time)
    requires CheckSpec(cfg, faults, c, now).1.Ok?
    ensures var (c', _, _) := CheckSpec(cfg, faults, c, now);
            var expected := NamesOf(Expected(cfg, now));
            RowNames(c'.rows) == expected + (if cfg.retain > -1 then RowNames(c.rows) * faults.audio
                                             else RowNames(c.rows))
            && c'.tables
                == c.tables + (if cfg.drop || cfg.retain <= -1 then {} else RowNames(c.rows) - expected - faults.audio)
  {
    hide ReadRows, CreateAll, Expected, Pruned, CheckSpec;
    ReadableWhenOk(cfg, faults, c, now);
    CheckParts(cfg, faults, c, now);
    PrunedParts(cfg, faults, c, now);
    var pruned, missing, expected := Pruned(cfg, faults, c, now), Missing(cfg, c, now), NamesOf(Expected(cfg, now));
    CreateAllNames(faults, pruned, missing);
    KeptNames(c.rows, pruned.catalog.rows, if cfg.retain > -1 then RowNames(c.rows) - expected - faults.audio else {});
    assert NamesOf(missing) == expected - RowNames(c.rows);
  }

  lemma ReadableWhenOk(cfg: Config, faults: Faults, c: Catalog, now: Time)
    ensures CheckSpec(cfg, faults, c, now).1.Ok? ==> ReadRows(cfg, c.rows).Ok?
    ensures ReadRows(cfg, c.rows).Err? ==> CheckSpec(cfg, faults, c, now).2 == {}
    ensures CheckSpec(cfg, faults, c, now).1.Err? ==> CheckSpec(cfg, faults, c, now).0 == c
  {
    hide ReadRows, PruneAll, CreateAll, Expected;
  }

  /** Without faults a check condemns the audio of every partition it does not expect, whether it then
      succeeds or not. */
  lemma CondemnsUnexpected(cfg: Config, c: Catalog, now: Time)
    requires ReadRows(cfg, c.rows).Ok? && cfg.retain > -1
    ensures CheckSpec(cfg, NO_FAULTS, c, now).2 == RowNames(c.rows) - NamesOf(Expected(cfg, now))
  {
    hide ReadRows, Expected, Pruned, CheckSpec, CreateAll;
    CheckParts(cfg, NO_FAULTS, c, now);
    PrunedParts(cfg, NO_FAULTS, c, now);
  }

  /** A partition whose audio a check condemned is still there afterwards exactly when the check failed
      and was rolled back, or the prune of its audio failed after all. */
  lemma CondemnedKept(cfg: Config, faults: Faults, c: Catalog, now: Time, name: string)
    requires name in CheckSpec(cfg, faults, c, now).2
    ensures var (c', r, _) := CheckSpec(cfg, faults, c, now);
            name in RowNames(c.rows) && (name in RowNames(c'.rows) <==> r.Err? || name in faults.audio)
  {
    hide ReadRows, Expected, Pruned, CheckSpec, CreateAll;
    ReadableWhenOk(cfg, faults, c, now);
    CheckParts(cfg, faults, c, now);
    PrunedParts(cfg, faults, c, now);
    if CheckSpec(cfg, faults, c, now).1.Ok? {
      CheckLeavesExpected(cfg, faults, c, now);
    }
  }

  /** The partitions whose audio a prune of some, in order, condemns: up to the first whose statements
      fail, and without those whose own prune fails before it reaches the audio. */
  function CondemnedOf(faults: Faults, ps: seq<Partition>): (names: set<string>)
    ensures names <= NamesOf(ps)
    decreases |ps|
  {
    if ps == [] || ps[0].name in faults.sweep then {}
    else
      NamesFront(ps);
      var own := if ps[0].name in faults.audio - faults.reached then {} else {ps[0].name};
      if ps[0].name in faults.statements - faults.audio then own else own + CondemnedOf(faults, ps[1..])
  }

  /** What a check condemns, from the catalogue and the faults alone. */
  function Condemns(cfg: Config, faults: Faults, c: Catalog, now: Time): set<string> {
    if cfg.retain <= -1 || ReadRows(cfg, c.rows).Err? then {}
    else CondemnedOf(faults, Without(ReadRows(cfg, c.rows).value, NamesOf(Expected(cfg, now))))
  }

  lemma {:induction false} PruneAllCondemns(cfg: Config, faults: Faults, tx: Tx, ps: seq<Partition>)
    ensures PruneAll(cfg, faults, tx, ps).condemned
         == tx.condemned + (if tx.aborted then {} else CondemnedOf(faults, ps))
    decreases |ps|
  {
    if ps != [] {
      PruneAllCondemns(cfg, faults, Prune(cfg, faults, tx, ps[0].name), ps[1..]);
    }
  }

  lemma CheckCondemns(cfg: Config, faults: Faults, c: Catalog, now: Time)
    ensures CheckSpec(cfg, faults, c, now).2 == Condemns(cfg, faults, c, now)
  {
    hide ReadRows, Expected, CheckSpec, CreateAll, PruneAll, CondemnedOf;
    ReadableWhenOk(cfg, faults, c, now);
    if ReadRows(cfg, c.rows).Ok? {
      CheckParts(cfg, faults, c, now);
      if cfg.retain > -1 {
        var unexpected := Without(ReadRows(cfg, c.rows).value, NamesOf(Expected(cfg, now)));
        PruneAllCondemns(cfg, faults, Begin(c), unexpected);
      }
    }
  }

  // ---- When a check succeeds ----------------------------------------------------------------------------

  /** Nothing is in the way of creating the partitions one after the other. */
  ghost predicate Room(faults: Faults, c: Catalog, ps: seq<Partition>) {
    NamesDistinct(ps) && NamesOf(ps) !! faults.statements && NamesOf(ps) !! c.tables && NamesOf(ps) !! RowNames(c.rows)
    && forall p, row :: p in ps && row in c.rows ==> !Overlap(NewRow(p).lower, NewRow(p).upper, row)
  }

  /** Partitions of different names cover different times. */
  ghost predicate Apart(ps: seq<Partition>) {
    forall p, q :: p in ps && q in ps && p.name != q.name ==> !Overlap(NewRow(p).lower, NewRow(p).upper, NewRow(q))
  }

  /** The missing partitions are all created exactly when there is room for them. */
  lemma {:induction false} CreateAllExactly(faults: Faults, tx: Tx, ps: seq<Partition>)
    requires !tx.aborted && Apart(ps)
    ensures !CreateAll(faults, tx, ps).aborted <==> Room(faults, tx.catalog, ps)
    decreases |ps|
  {
    hide NewRow, Overlap, CanCreate, RowNames, NamesOf, NamesDistinct;
    if ps == [] {
      NoNames(ps);
      NoneDistinct(ps);
    } else {
      var tx', rest := Create(faults, tx, ps[0]), ps[1..];
      CanCreateAsRoom(tx.catalog, ps[0]);
      NameOfMember(ps, ps[0]);
      if tx'.aborted {
        AbortedStays(faults, tx', rest);
      } else {
        assert Apart(rest);
        CreateAllExactly(faults, tx', rest);
        NewRowNames(tx.catalog.rows, ps[0]);
        RestHasRoom(faults, tx.catalog, tx'.catalog, ps);
      }
    }
  }

  lemma NoneDistinct(ps: seq<Partition>)
    requires ps == []
    ensures NamesDistinct(ps)
  {}

  lemma NewRowNames(rows: seq<PartitionResult>, p: Partition)
    ensures RowNames(rows + [NewRow(p)]) == RowNames(rows) + {p.name}
  {
    hide Bounds;
    assert NewRow(p).name == p.name;
    assert forall row :: row in rows + [NewRow(p)] <==> row in rows || row == NewRow(p);
  }

  lemma RestHasRoom(faults: Faults, c: Catalog, c': Catalog, ps: seq<Partition>)
    requires ps != [] && Apart(ps) && c'.tables == c.tables && c'.rows == c.rows + [NewRow(ps[0])]
    requires RowNames(c'.rows) == RowNames(c.rows) + {ps[0].name}
    requires ps[0].name !in faults.statements && CanCreate(c, ps[0])
    ensures Room(faults, c', ps[1..]) <==> Room(faults, c, ps)
  {
    hide NewRow, Overlap, NamesOf, NamesDistinct, RowNames;
    var rest := ps[1..];
    NamesFront(ps);
    DistinctFront(ps);
    CanCreateAsRoom(c, ps[0]);
    assert forall p :: p in ps <==> p == ps[0] || p in rest;
    assert forall row :: row in c'.rows <==> row in c.rows || row == NewRow(ps[0]);
    if ps[0].name !in NamesOf(rest) {
      forall p | p in rest ensures !Overlap(NewRow(p).lower, NewRow(p).upper, NewRow(ps[0])) {
        NameOfMember(rest, p);
      }
    }
  }

  lemma DistinctFront(ps: seq<Partition>)
    requires ps != []
    ensures NamesDistinct(ps) <==> NamesDistinct(ps[1..]) && ps[0].name !in NamesOf(ps[1..])
  {
    var rest := ps[1..];
    assert forall i :: 0 <= i < |rest| ==> rest[i] == ps[i + 1];
    if NamesDistinct(rest) && ps[0].name !in NamesOf(rest) {
      forall i, j | 0 <= i < j < |ps| ensures ps[i].name != ps[j].name {
        assert rest[j - 1] in rest;
        assert i > 0 ==> rest[i - 1] == ps[i];
      }
    }
  }

  lemma NameOfMember(ps: seq<Partition>, p: Partition)
    requires p in ps
    ensures p.name in NamesOf(ps)
  {}

  lemma CanCreateAsRoom(c: Catalog, p: Partition)
    ensures CanCreate(c, p) <==>
      p.name !in RowNames(c.rows) && p.name !in c.tables
      && forall row :: row in c.rows ==> !Overlap(NewRow(p).lower, NewRow(p).upper, row)
  {
    hide Bounds, Overlap, RowNames;
  }

  /** Different expected partitions cover different times. */
  lemma ExpectedApart(cfg: Config, now: Time)
    requires InCalendar(cfg, now)
    ensures Apart(Expected(cfg, now))
  {
    hide Expected, Step, StepIndex, NewRow, RowOf, Index, Bounds, Start;
    forall p, q | p in Expected(cfg, now) && q in Expected(cfg, now) && p.name != q.name
      ensures !Overlap(NewRow(p).lower, NewRow(p).upper, NewRow(q))
    {
      ExpectedAreSteps(cfg, now, p);
      ExpectedAreSteps(cfg, now, q);
      var i :| InReach(cfg, i) && p == Step(cfg, now, i);
      var j :| InReach(cfg, j) && q == Step(cfg, now, j);
      StepNames(cfg, now, i, j);
      StepCovers(cfg, now, i);
      StepCovers(cfg, now, j);
      var s := if SundayWeek(cfg.interval, now) then 1 else 0;
      RowsApart(cfg, StepIndex(cfg, now, i) + s, StepIndex(cfg, now, j) + s);
      RowBounds(cfg, StepIndex(cfg, now, j) + s);
    }
  }

  /** An expected partition covers its interval, or on a Sunday of a weekly scheme the next. */
  lemma StepCovers(cfg: Config, now: Time, i: int)
    requires InCalendar(cfg, now) && InReach(cfg, i)
    ensures var k := StepIndex(cfg, now, i) + (if SundayWeek(cfg.interval, now) then 1 else 0);
            k >= FirstIndex(cfg.interval)
            && NewRow(Step(cfg, now, i)).lower == StartTime(cfg.interval, k)
            && NewRow(Step(cfg, now, i)).upper == StartTime(cfg.interval, k + 1)
  {
    hide Start, Index, Bounds, StepTime, StepIndex, NewPartition;
    StepBounds(cfg, now, i);
    NewPartitionFields(cfg.schema, cfg.interval, StepTime(cfg, now, i));
  }

  /** What a check needs to succeed, all of it known before the check. */
  ghost predicate Passes(cfg: Config, faults: Faults, c: Catalog, now: Time) {
    var missing, unexpected := Missing(cfg, c, now), RowNames(c.rows) - NamesOf(Expected(cfg, now));
    !faults.commit
    && (cfg.retain > -1 ==> unexpected !! faults.sweep && unexpected - faults.audio !! faults.statements)
    && NamesDistinct(missing) && NamesOf(missing) !! faults.statements
    && (NamesOf(missing) !! c.tables)
    && forall p, row :: p in missing && row in c.rows && Kept(cfg, faults, now, row) ==>
         !Overlap(NewRow(p).lower, NewRow(p).upper, row)
  }

  /** A check succeeds exactly when its rows can be read, no statement it comes to fails, and the missing
      partitions have distinct names, none that of a detached table, and cover no time of a partition
      that stays. */
  lemma CheckSucceeds(cfg: Config, faults: Faults, c: Catalog, now: Time)
    requires InCalendar(cfg, now)
    ensures CheckSpec(cfg, faults, c, now).1.Ok? <==> ReadRows(cfg, c.rows).Ok? && Passes(cfg, faults, c, now)
  {
    hide ReadRows, Expected, Pruned, CheckSpec, NewRow, InCalendar, Overlap;
    ReadableWhenOk(cfg, faults, c, now);
    if ReadRows(cfg, c.rows).Ok? {
      CheckParts(cfg, faults, c, now);
      PrunedParts(cfg, faults, c, now);
      var pruned, missing := Pruned(cfg, faults, c, now), Missing(cfg, c, now);
      if pruned.aborted {
        AbortedStays(faults, pruned, missing);
      } else {
        ExpectedApart(cfg, now);
        CreateAllExactly(faults, pruned, missing);
        MissingRoom(cfg, faults, c, now, pruned);
      }
    }
  }

  /** No partition stays whose audio a check condemned, exactly when it condemns none, or what it needs to
      succeed is there and every prune of the condemned audio goes through. */
  lemma CondemnedGo(cfg: Config, faults: Faults, c: Catalog, now: Time)
    requires InCalendar(cfg, now)
    ensures var (c', _, condemned) := CheckSpec(cfg, faults, c, now);
            condemned == Condemns(cfg, faults, c, now)
            && (condemned !! RowNames(c'.rows) <==>
                  Condemns(cfg, faults, c, now) == {}
                  || (Passes(cfg, faults, c, now) && Condemns(cfg, faults, c, now) !! faults.audio))
  {
    hide ReadRows, Expected, CheckSpec, Condemns, Passes, InCalendar, RowNames;
    CheckCondemns(cfg, faults, c, now);
    CheckSucceeds(cfg, faults, c, now);
    ReadableWhenOk(cfg, faults, c, now);
    var (c', r, condemned) := CheckSpec(cfg, faults, c, now);
    forall name | name in condemned ensures name in RowNames(c'.rows) <==> r.Err? || name in faults.audio {
      CondemnedKept(cfg, faults, c, now, name);
    }
    if condemned != {} {
      var name :| name in condemned;
      assert ReadRows(cfg, c.rows).Ok?;
    }
  }

  lemma NothingOver<T>(a: set<T>, b: set<T>)
    ensures a - b == {} <==> a <= b
  {
    forall x | x in a && a - b == {} ensures x in b {
      assert x !in a - b;
    }
  }

  /** Without faults: exactly when nothing is to be pruned, or the check succeeds. */
  lemma CondemnedGoWithoutFaults(cfg: Config, c: Catalog, now: Time)
    requires InCalendar(cfg, now)
    ensures var (c', _, condemned) := CheckSpec(cfg, NO_FAULTS, c, now);
            condemned !! RowNames(c'.rows) <==>
              ReadRows(cfg, c.rows).Err? || cfg.retain <= -1 || RowNames(c.rows) <= NamesOf(Expected(cfg, now))
              || Passes(cfg, NO_FAULTS, c, now)
  {
    hide ReadRows, Expected, CheckSpec, Passes, InCalendar, RowNames, NamesOf, CondemnedOf, Without;
    CondemnedGo(cfg, NO_FAULTS, c, now);
    var condemned, expected := Condemns(cfg, NO_FAULTS, c, now), NamesOf(Expected(cfg, now));
    if ReadRows(cfg, c.rows).Ok? && cfg.retain > -1 {
      CondemnsUnexpected(cfg, c, now);
      assert condemned == RowNames(c.rows) - expected;
      NothingOver(RowNames(c.rows), expected);
    } else {
      assert condemned == {};
    }
  }

  lemma MissingRoom(cfg: Config, faults: Faults, c: Catalog, now: Time, pruned: Tx)
    requires forall row :: row in pruned.catalog.rows <==> row in c.rows && Kept(cfg, faults, now, row)
    requires var expected := NamesOf(Expected(cfg, now));
             pruned.catalog.tables
             == c.tables + (if cfg.drop || cfg.retain <= -1 then {} else RowNames(c.rows) - expected - faults.audio)
    ensures var missing := Missing(cfg, c, now);
            Room(faults, pruned.catalog, missing)
            <==> NamesDistinct(missing) && NamesOf(missing) !! faults.statements && NamesOf(missing) !! c.tables
                 && forall p, row :: p in missing && row in c.rows && Kept(cfg, faults, now, row) ==>
                      !Overlap(NewRow(p).lower, NewRow(p).upper, row)
  {
    hide Expected, NewRow, Overlap, NamesDistinct, Kept;
    var missing := Missing(cfg, c, now);
    assert NamesOf(missing) <= NamesOf(Expected(cfg, now));
    assert RowNames(pruned.catalog.rows) <= RowNames(c.rows);
    assert NamesOf(missing) !! RowNames(c.rows);
  }

  // ---- Catalogues of one scheme -----------------------------------------------------------------------

  /** The row of interval k of a scheme. */
  function RowOf(cfg: Config, k: int): PartitionResult {
    PartitionResult(CALLS_TABLE, cfg.schema, NewPartition(cfg.schema, cfg.interval, StartTime(cfg.interval, k)).name,
                    StartTime(cfg.interval, k), StartTime(cfg.interval, k + 1))
  }

  ghost predicate IsRow(cfg: Config, row: PartitionResult) {
    exists k :: k >= FirstIndex(cfg.interval) && row == RowOf(cfg, k)
  }

  /** Every row is an interval's, named and bounded for it. */
  ghost predicate Aligned(cfg: Config, c: Catalog) {
    forall row :: row in c.rows ==> IsRow(cfg, row)
  }

  lemma RowReads(cfg: Config, row: PartitionResult)
    requires IsRow(cfg, row)
    ensures ReadRow(cfg, row) == Ok(Partition(CALLS_TABLE, cfg.schema, row.name, cfg.interval, row.lower))
  {
    hide Start, Index, NewPartition, VerifyPartName;
    var k :| k >= FirstIndex(cfg.interval) && row == RowOf(cfg, k);
    IndexOfStart(cfg.interval, k);
    StartsInOrder(cfg.interval, k, k + 1);
    NamesParseBack(cfg.schema, cfg.interval, StartTime(cfg.interval, k), row.lower, row.upper);
  }

  lemma AlignedReads(cfg: Config, c: Catalog)
    requires Aligned(cfg, c)
    ensures ReadRows(cfg, c.rows).Ok?
  {
    hide ReadRow, IsRow, ReadRows;
    ReadRowsShape(cfg, c.rows);
    forall i | 0 <= i < |c.rows| ensures ReadRow(cfg, c.rows[i]).Ok? {
      RowReads(cfg, c.rows[i]);
    }
  }

  /** Rows of different intervals have different names and do not overlap. */
  lemma RowsApart(cfg: Config, i: int, j: int)
    requires i >= FirstIndex(cfg.interval) && j >= FirstIndex(cfg.interval)
    ensures RowOf(cfg, i).name == RowOf(cfg, j).name <==> i == j
    ensures i != j ==> !Overlap(StartTime(cfg.interval, i), StartTime(cfg.interval, i + 1), RowOf(cfg, j))
  {
    hide Start, Index, NewPartition;
    IndexOfStart(cfg.interval, i);
    IndexOfStart(cfg.interval, j);
    NamesIdentify(cfg.schema, cfg.interval, StartTime(cfg.interval, i), StartTime(cfg.interval, j));
    if i + 1 < j {
      StartsInOrder(cfg.interval, i + 1, j);
    } else if j + 1 < i {
      StartsInOrder(cfg.interval, j + 1, i);
    }
  }

  /** Off a Sunday, an expected partition is created as the row of its interval. */
  lemma StepRow(cfg: Config, now: Time, i: int)
    requires InCalendar(cfg, now) && InReach(cfg, i) && !SundayWeek(cfg.interval, now)
    ensures NewRow(Step(cfg, now, i)) == RowOf(cfg, StepIndex(cfg, now, i))
    ensures StepIndex(cfg, now, i) >= FirstIndex(cfg.interval)
  {
    hide Start, Index, NewPartition, Bounds, StepTime, StepIndex;
    StepPlaces(cfg, now, i);
    StepBounds(cfg, now, i);
    var k := StepIndex(cfg, now, i);
    IndexOfStart(cfg.interval, k);
    NamesIdentify(cfg.schema, cfg.interval, StepTime(cfg, now, i), StartTime(cfg.interval, k));
    NewPartitionFields(cfg.schema, cfg.interval, StepTime(cfg, now, i));
  }

  lemma NewPartitionFields(schema: string, iv: Interval, t: Time)
    ensures var p := NewPartition(schema, iv, t); p.schema == schema && p.interval == iv && p.time == t
  {}

  lemma ExpectedRow(cfg: Config, now: Time, p: Partition)
    requires InCalendar(cfg, now) && !SundayWeek(cfg.interval, now) && p in Expected(cfg, now)
    ensures IsRow(cfg, NewRow(p))
  {
    hide Expected, Step, StepIndex, NewRow, RowOf;
    ExpectedAreSteps(cfg, now, p);
    var i :| InReach(cfg, i) && p == Step(cfg, now, i);
    StepRow(cfg, now, i);
  }

  lemma RowBounds(cfg: Config, k: int)
    ensures RowOf(cfg, k).lower == StartTime(cfg.interval, k) && RowOf(cfg, k).upper == StartTime(cfg.interval, k + 1)
  {
    hide Start, NewPartition;
  }

  lemma {:induction false} WithoutDistinct(ps: seq<Partition>, names: set<string>)
    requires NamesDistinct(ps)
    ensures NamesDistinct(Without(ps, names))
  {
    if ps != [] {
      WithoutDistinct(ps[..|ps| - 1], names);
      forall p | p in ps[..|ps| - 1] ensures p.name != ps[|ps| - 1].name {
        var i :| 0 <= i < |ps| - 1 && ps[i] == p;
      }
    }
  }

  /** Off a Sunday, and without faults, a check of a catalogue of whole intervals succeeds exactly when
      the missing partitions have distinct names, none that of a detached table. */
  lemma CheckOffSunday(cfg: Config, c: Catalog, now: Time)
    requires Aligned(cfg, c) && InCalendar(cfg, now) && !SundayWeek(cfg.interval, now)
    ensures var missing := Missing(cfg, c, now);
            CheckSpec(cfg, NO_FAULTS, c, now).1.Ok? <==> NamesDistinct(missing) && NamesOf(missing) !! c.tables
  {
    hide ReadRows, Expected, CheckSpec, NewRow, Overlap, NamesDistinct, IsRow, InCalendar, SundayWeek;
    AlignedReads(cfg, c);
    CheckSucceeds(cfg, NO_FAULTS, c, now);
    forall p, row | p in Missing(cfg, c, now) && row in c.rows ensures !Overlap(NewRow(p).lower, NewRow(p).upper, row) {
      ExpectedRow(cfg, now, p);
      NewRowName(p);
      assert row.name in RowNames(c.rows);
      MissingApart(cfg, p, row);
    }
  }

  lemma MissingApart(cfg: Config, p: Partition, row: PartitionResult)
    requires IsRow(cfg, NewRow(p)) && IsRow(cfg, row) && NewRow(p).name != row.name
    ensures !Overlap(NewRow(p).lower, NewRow(p).upper, row)
  {
    hide RowOf, NewRow, Start;
    var k :| k >= FirstIndex(cfg.interval) && NewRow(p) == RowOf(cfg, k);
    var j :| j >= FirstIndex(cfg.interval) && row == RowOf(cfg, j);
    RowsApart(cfg, k, j);
    RowBounds(cfg, k);
  }

  /** A successful check that creates nothing on a Sunday keeps every row an interval's. */
  lemma CheckKeepsAligned(cfg: Config, faults: Faults, c: Catalog, now: Time)
    requires Aligned(cfg, c) && InCalendar(cfg, now) && CheckSpec(cfg, faults, c, now).1.Ok?
    requires SundayWeek(cfg.interval, now) ==> Missing(cfg, c, now) == []
    ensures Aligned(cfg, CheckSpec(cfg, faults, c, now).0)
  {
    hide ReadRows, CreateAll, Expected, Pruned, CheckSpec, IsRow, NewRow, InCalendar, SundayWeek;
    AlignedReads(cfg, c);
    CheckParts(cfg, faults, c, now);
    PrunedParts(cfg, faults, c, now);
    var pruned, missing := Pruned(cfg, faults, c, now), Missing(cfg, c, now);
    CreateAllNames(faults, pruned, missing);
    forall row | row in CreateAll(faults, pruned, missing).catalog.rows ensures IsRow(cfg, row) {
      if row !in pruned.catalog.rows {
        var p :| p in missing && row == NewRow(p);
        ExpectedRow(cfg, now, p);
      }
    }
  }

  // ---- Checking again --------------------------------------------------------------------------------------

  /** A check that finds exactly the expected names changes nothing. */
  lemma IdleCheck(cfg: Config, c: Catalog, now: Time)
    requires ReadRows(cfg, c.rows).Ok?
    requires NamesOf(Expected(cfg, now)) <= RowNames(c.rows)
    requires cfg.retain > -1 ==> RowNames(c.rows) == NamesOf(Expected(cfg, now))
    ensures CheckSpec(cfg, NO_FAULTS, c, now) == (c, Ok(()), {})
  {
    hide ReadRows, Expected;
    ReadNames(cfg, c.rows);
    var existing := ReadRows(cfg, c.rows).value;
    var expected := Expected(cfg, now);
    AllNamed(expected, NamesOf(existing));
    if cfg.retain > -1 {
      AllNamed(existing, NamesOf(expected));
    }
  }

  lemma {:induction false} AllNamed(ps: seq<Partition>, names: set<string>)
    requires NamesOf(ps) <= names
    ensures Without(ps, names) == []
  {
    if ps != [] {
      var init := ps[..|ps| - 1];
      assert NamesOf(ps) == NamesOf(init) + {ps[|ps| - 1].name};
      AllNamed(init, names);
    }
  }

  /** Checking twice: the second check at the same time succeeds and changes nothing, exactly when
      the first created nothing on a Sunday of a weekly scheme. What it creates on a Sunday bears
      this week's name with next week's range, and every later check refuses to read it. */
  lemma SecondCheck(cfg: Config, c: Catalog, now: Time)
    requires Aligned(cfg, c) && InCalendar(cfg, now) && CheckSpec(cfg, NO_FAULTS, c, now).1.Ok?
    ensures var c' := CheckSpec(cfg, NO_FAULTS, c, now).0;
            CheckSpec(cfg, NO_FAULTS, c', now).0 == c'
            && (CheckSpec(cfg, NO_FAULTS, c', now).1.Ok?
                <==> (SundayWeek(cfg.interval, now) ==> NamesOf(Expected(cfg, now)) <= RowNames(c.rows)))
  {
    hide ReadRows, ReadRow, CreateAll, Expected, IsRow, NewRow, SundayWeek, InCalendar, Pruned, CheckSpec;
    CheckLeavesExpected(cfg, NO_FAULTS, c, now);
    var c' := CheckSpec(cfg, NO_FAULTS, c, now).0;
    AlignedReads(cfg, c);
    CheckParts(cfg, NO_FAULTS, c, now);
    PrunedParts(cfg, NO_FAULTS, c, now);
    var pruned, missing := Pruned(cfg, NO_FAULTS, c, now), Missing(cfg, c, now);
    CreateAllNames(NO_FAULTS, pruned, missing);
    if SundayWeek(cfg.interval, now) && missing != [] {
      var p := missing[0];
      SundayUnreadable(cfg, now, p);
      UnreadableRow(cfg, c'.rows, NewRow(p));
      assert p.name in NamesOf(Expected(cfg, now)) && p.name !in RowNames(c.rows);
      ReadableWhenOk(cfg, NO_FAULTS, c', now);
    } else {
      CheckKeepsAligned(cfg, NO_FAULTS, c, now);
      AlignedReads(cfg, c');
      IdleCheck(cfg, c', now);
      if missing == [] {
        AllPresent(Expected(cfg, now), RowNames(c.rows));
      }
    }
  }

  lemma AllPresent(ps: seq<Partition>, names: set<string>)
    requires Without(ps, names) == []
    ensures NamesOf(ps) <= names
  {
    forall p | p in ps ensures p.name in names {
      assert p !in Without(ps, names);
    }
  }

  lemma SundayUnreadable(cfg: Config, now: Time, p: Partition)
    requires InCalendar(cfg, now) && SundayWeek(cfg.interval, now) && p in Expected(cfg, now)
    ensures ReadRow(cfg, NewRow(p)).Err?
  {
    hide Expected, StepTime, Bounds, VerifyPartName, NewPartition, InCalendar, SundayWeek;
    ExpectedAreSteps(cfg, now, p);
    var i :| InReach(cfg, i) && p == Step(cfg, now, i);
    StepPlaces(cfg, now, i);
    NewPartitionFields(cfg.schema, cfg.interval, StepTime(cfg, now, i));
    OwnRangeAccepted(cfg.schema, cfg.interval, StepTime(cfg, now, i));
  }

  lemma UnreadableRow(cfg: Config, rows: seq<PartitionResult>, row: PartitionResult)
    requires row in rows && ReadRow(cfg, row).Err?
    ensures ReadRows(cfg, rows).Err?
  {
    hide ReadRow, ReadRows;
    ReadRowsShape(cfg, rows);
  }

  // ---- Runs ---------------------------------------------------------------------------------------------------

  /** A run of checks without faults, and whether all succeeded. */
  function Run(cfg: Config, c: Catalog, nows: seq<Time>): (r: (Catalog, bool)) {
    if nows == [] then (c, true)
    else
      var (c', ok) := Run(cfg, c, nows[..|nows| - 1]);
      var (c'', r, _) := CheckSpec(cfg, NO_FAULTS, c', nows[|nows| - 1]);
      (c'', ok && r.Ok?)
  }

  /** With dropping on, every run of checks from an empty catalogue succeeds throughout, in any order of
      times, keeps each row an interval's, and ends with exactly the last check's partitions. */
  lemma {:induction false} DroppingRunsSucceed(cfg: Config, nows: seq<Time>)
    requires cfg.drop
    requires forall i :: 0 <= i < |nows| ==>
      InCalendar(cfg, nows[i]) && !SundayWeek(cfg.interval, nows[i]) && NamesMeetNot(cfg, nows[i])
    ensures var (c, ok) := Run(cfg, Catalog([], {}), nows);
            ok && Aligned(cfg, c) && c.tables == {}
            && (nows != [] && cfg.retain > -1 ==> RowNames(c.rows) == NamesOf(Expected(cfg, nows[|nows| - 1])))
  {
    hide CheckSpec, InCalendar, SundayWeek, NamesMeetNot, IsRow, Expected;
    if nows != [] {
      var now := nows[|nows| - 1];
      DroppingRunsSucceed(cfg, nows[..|nows| - 1]);
      var (c, ok) := Run(cfg, Catalog([], {}), nows[..|nows| - 1]);
      ExpectedNamesDistinct(cfg, now);
      WithoutDistinct(Expected(cfg, now), RowNames(c.rows));
      CheckOffSunday(cfg, c, now);
      CheckKeepsAligned(cfg, NO_FAULTS, c, now);
      CheckLeavesExpected(cfg, NO_FAULTS, c, now);
    }
  }
}
