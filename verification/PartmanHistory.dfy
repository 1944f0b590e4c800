/**
 Runs of checks at any times, in any order: when they all succeed, from the times alone.
 */
module PartmanHistory {
  import opened CivilTime
  import opened Intervals
  import opened PartitionNames
  import opened Partman
  import opened PartmanRuns
  import opened PartmanOrder

  // ---- One check of whole intervals ------------------------------------------------------------------

  /** The names that a check does not prune. */
  function Stays(cfg: Config, names: set<string>, now: Time): set<string> {
    if cfg.retain > -1 then names * NamesOf(Expected(cfg, now)) else names
  }

  /** No new partition is directly before one that stays, whose range it would take on a Sunday. */
  ghost predicate SundayClear(cfg: Config, names: set<string>, now: Time) {
    forall m :: m >= FirstIndex(cfg.interval) && NameAt(cfg, m) in NamesOf(Expected(cfg, now)) - names ==>
      NameAt(cfg, m + 1) !in Stays(cfg, names, now)
  }

  ghost predicate NothingCovered(cfg: Config, c: Catalog, now: Time) {
    forall p, row :: p in Missing(cfg, c, now) && row in c.rows && Kept(cfg, NO_FAULTS, now, row) ==>
      !Overlap(NewRow(p).lower, NewRow(p).upper, row)
  }

  /** What a check creates on a Sunday covers no time of a partition that stays exactly when each new
      interval's successor is not there, or goes. */
  lemma SundayRoom(cfg: Config, c: Catalog, now: Time)
    requires Aligned(cfg, c) && InCalendar(cfg, now) && SundayWeek(cfg.interval, now)
    ensures NothingCovered(cfg, c, now) <==> SundayClear(cfg, RowNames(c.rows), now)
  {
    hide Expected, NewRow, Overlap, InCalendar, SundayWeek, Step, NameAt, RowOf, FirstIndex, Aligned, StepIndex, Kept;
    forall p, row | p in Missing(cfg, c, now) && row in c.rows && Kept(cfg, NO_FAULTS, now, row)
                    && Overlap(NewRow(p).lower, NewRow(p).upper, row)
      ensures !SundayClear(cfg, RowNames(c.rows), now)
    {
      var k := Covers(cfg, c, now, p);
      StaysByName(cfg, c, now, row);
      OnlySuccessor(cfg, c, k, p, row);
    }
    if !SundayClear(cfg, RowNames(c.rows), now) {
      var m :| m >= FirstIndex(cfg.interval) && NameAt(cfg, m) in NamesOf(Expected(cfg, now)) - RowNames(c.rows)
               && NameAt(cfg, m + 1) in Stays(cfg, RowNames(c.rows), now);
      var p :| p in Expected(cfg, now) && p.name == NameAt(cfg, m);
      var k := Covers(cfg, c, now, p);
      NamesAt(cfg, m, k);
      NamedRow(cfg, c, m + 1);
      RowIsNamed(cfg, m + 1);
      StaysByName(cfg, c, now, RowOf(cfg, m + 1));
      CoversItself(cfg, m + 1);
    }
  }

  /** On a Sunday a missing partition is created with the range of the interval after its own. */
  lemma Covers(cfg: Config, c: Catalog, now: Time, p: Partition) returns (k: int)
    requires InCalendar(cfg, now) && SundayWeek(cfg.interval, now) && p in Missing(cfg, c, now)
    ensures k >= FirstIndex(cfg.interval) && p.name == NameAt(cfg, k)
    ensures NewRow(p).lower == StartTime(cfg.interval, k + 1) && NewRow(p).upper == StartTime(cfg.interval, k + 2)
  {
    hide Expected, Step, NameAt, StepIndex, InCalendar, SundayWeek, FirstIndex, NewRow, Start;
    ExpectedAreSteps(cfg, now, p);
    var i :| InReach(cfg, i) && p == Step(cfg, now, i);
    StepName(cfg, now, i);
    StepCovers(cfg, now, i);
    k := StepIndex(cfg, now, i);
  }

  lemma StaysByName(cfg: Config, c: Catalog, now: Time, row: PartitionResult)
    requires row in c.rows
    ensures Kept(cfg, NO_FAULTS, now, row) <==> row.name in Stays(cfg, RowNames(c.rows), now)
  {
    hide Expected, NamesOf;
  }

  lemma RowIsNamed(cfg: Config, k: int)
    ensures RowOf(cfg, k).name == NameAt(cfg, k)
  {
    hide RowOf;
  }

  lemma OnlySuccessor(cfg: Config, c: Catalog, k: int, p: Partition, row: PartitionResult)
    requires Aligned(cfg, c) && row in c.rows && k >= FirstIndex(cfg.interval)
    requires NewRow(p).lower == StartTime(cfg.interval, k + 1) && NewRow(p).upper == StartTime(cfg.interval, k + 2)
    requires Overlap(NewRow(p).lower, NewRow(p).upper, row)
    ensures row.name == NameAt(cfg, k + 1)
  {
    hide RowOf, Start, NewRow, Overlap, FirstIndex;
    assert IsRow(cfg, row);
    var j :| j >= FirstIndex(cfg.interval) && row == RowOf(cfg, j);
    RowsApart(cfg, k + 1, j);
  }

  lemma CoversItself(cfg: Config, k: int)
    requires k >= FirstIndex(cfg.interval)
    ensures Overlap(StartTime(cfg.interval, k), StartTime(cfg.interval, k + 1), RowOf(cfg, k))
  {
    hide Start, NewPartition;
    StartsInOrder(cfg.interval, k, k + 1);
  }

  /** Whether a check of whole intervals succeeds, from the names there are. */
  ghost predicate Succeeds(cfg: Config, names: set<string>, tables: set<string>, now: Time) {
    NamesDistinct(Without(Expected(cfg, now), names)) && NamesOf(Expected(cfg, now)) - names !! tables
    && (SundayWeek(cfg.interval, now) ==> SundayClear(cfg, names, now))
  }

  lemma CheckByNames(cfg: Config, c: Catalog, now: Time)
    requires Aligned(cfg, c) && InCalendar(cfg, now)
    ensures CheckSpec(cfg, NO_FAULTS, c, now).1.Ok? <==> Succeeds(cfg, RowNames(c.rows), c.tables, now)
  {
    hide ReadRows, Expected, CheckSpec, NamesDistinct, InCalendar, SundayWeek, Aligned, SundayClear, NewRow, Overlap,
         Kept;
    NamesWithout(Expected(cfg, now), RowNames(c.rows));
    if SundayWeek(cfg.interval, now) {
      AlignedReads(cfg, c);
      CheckSucceeds(cfg, NO_FAULTS, c, now);
      SundayRoom(cfg, c, now);
    } else {
      CheckOffSunday(cfg, c, now);
    }
  }

  lemma NamesWithout(ps: seq<Partition>, names: set<string>)
    ensures NamesOf(Without(ps, names)) == NamesOf(ps) - names
  {}

  // ---- What a run leaves ---------------------------------------------------------------------------------

  /** What is expected at each of the times. */
  function Expectations(cfg: Config, nows: seq<Time>): (es: seq<set<string>>)
    ensures |es| == |nows|
  {
    seq(|nows|, i requires 0 <= i < |nows| => NamesOf(Expected(cfg, nows[i])))
  }

  /** The partitions after successful checks: what the last expected, or everything ever expected. */
  function Present(cfg: Config, es: seq<set<string>>): set<string> {
    if es == [] then {}
    else es[|es| - 1] + (if cfg.retain > -1 then {} else Present(cfg, es[..|es| - 1]))
  }

  /** The tables detached on the way and not dropped. */
  function Detached(cfg: Config, es: seq<set<string>>): set<string> {
    if es == [] || cfg.drop || cfg.retain <= -1 then {}
    else Detached(cfg, es[..|es| - 1]) + (Present(cfg, es[..|es| - 1]) - es[|es| - 1])
  }

  /** No partition is expected again after a time that did not expect it. */
  ghost predicate NeverReturns(es: seq<set<string>>) {
    forall a, b, i :: 0 <= a < b < i < |es| ==> es[a] * es[i] <= es[b]
  }

  /** What was detached is what one check expected and the next did not. */
  lemma {:induction false} DetachedWere(cfg: Config, es: seq<set<string>>, n: string)
    requires !cfg.drop && cfg.retain > -1
    ensures n in Detached(cfg, es) <==> exists b :: 0 < b < |es| && n in es[b - 1] - es[b]
  {
    if es != [] {
      var init, l := es[..|es| - 1], |es| - 1;
      DetachedWere(cfg, init, n);
      if exists b :: 0 < b < |es| && n in es[b - 1] - es[b] {
        var b :| 0 < b < |es| && n in es[b - 1] - es[b];
        assert b < l ==> n in init[b - 1] - init[b];
      }
      if n in Detached(cfg, init) {
        var b :| 0 < b < |init| && n in init[b - 1] - init[b];
        assert n in es[b - 1] - es[b];
      } else if n in Detached(cfg, es) {
        assert n in es[l - 1] - es[l];
      }
    }
  }

  /** A name that was expected and then not went at some time between. */
  lemma {:induction false} Went(es: seq<set<string>>, a: nat, b: nat, n: string) returns (g: nat)
    requires a < b < |es| && n in es[a] && n !in es[b]
    ensures a < g <= b && n in es[g - 1] - es[g]
    decreases b
  {
    if n in es[b - 1] {
      g := b;
    } else {
      g := Went(es, a, b - 1, n);
    }
  }

  /** One more time keeps names from returning exactly when nothing that is new then was detached. */
  lemma ReturnsStep(cfg: Config, es: seq<set<string>>)
    requires es != [] && !cfg.drop && cfg.retain > -1
    ensures var init, last := es[..|es| - 1], es[|es| - 1];
            NeverReturns(es) <==> NeverReturns(init) && last - Present(cfg, init) !! Detached(cfg, init)
  {
    hide Detached;
    var init, l := es[..|es| - 1], |es| - 1;
    if NeverReturns(es) {
      forall a, b, i | 0 <= a < b < i < |init| ensures init[a] * init[i] <= init[b] {
        assert es[a] * es[i] <= es[b];
      }
      forall n | n in es[l] - Present(cfg, init) ensures n !in Detached(cfg, init) {
        DetachedWere(cfg, init, n);
        assert forall b :: 0 < b < |init| ==> es[b - 1] * es[l] <= es[b];
      }
    }
    if NeverReturns(init) && es[l] - Present(cfg, init) !! Detached(cfg, init) {
      forall a, b, i | 0 <= a < b < i < |es| ensures es[a] * es[i] <= es[b] {
        if i < l {
          assert init[a] * init[i] <= init[b];
        } else {
          forall n | n in es[a] * es[i] ensures n in es[b] {
            NotWent(cfg, es, a, b, n);
          }
        }
      }
    }
  }

  lemma NotWent(cfg: Config, es: seq<set<string>>, a: nat, b: nat, n: string)
    requires !cfg.drop && cfg.retain > -1 && a < b < |es| - 1 && n in es[a] && n in es[|es| - 1]
    requires var init := es[..|es| - 1];
             NeverReturns(init) && es[|es| - 1] - Present(cfg, init) !! Detached(cfg, init)
    ensures n in es[b]
  {
    hide Detached;
    var init, l := es[..|es| - 1], |es| - 1;
    if n !in es[b] {
      if n !in es[l - 1] {
        var g := Went(es, a, b, n);
        assert n in init[g - 1] - init[g];
        DetachedWere(cfg, init, n);
      }
    }
  }

  // ---- Runs of checks ----------------------------------------------------------------------------------------

  /** The names that are new at a time. */
  function New(cfg: Config, nows: seq<Time>, i: nat): set<string>
    requires i < |nows|
  {
    NamesOf(Expected(cfg, nows[i])) - Present(cfg, Expectations(cfg, nows[..i]))
  }

  predicate CreatesOnSunday(cfg: Config, nows: seq<Time>, i: nat)
    requires i < |nows|
  {
    SundayWeek(cfg.interval, nows[i]) && New(cfg, nows, i) != {}
  }

  predicate EndsOnSunday(cfg: Config, nows: seq<Time>) {
    nows != [] && CreatesOnSunday(cfg, nows, |nows| - 1)
  }

  /** What the check at a time needs, given that those before it succeeded. */
  ghost predicate Fits(cfg: Config, nows: seq<Time>, i: nat)
    requires i < |nows|
  {
    var before := Present(cfg, Expectations(cfg, nows[..i]));
    NamesDistinct(Without(Expected(cfg, nows[i]), before))
    && (SundayWeek(cfg.interval, nows[i]) ==> SundayClear(cfg, before, nows[i]))
  }

  /** Where tables stay when they are detached, no partition returns. */
  ghost predicate Allowed(cfg: Config, nows: seq<Time>) {
    cfg.drop || cfg.retain <= -1 || NeverReturns(Expectations(cfg, nows))
  }

  /** Every check fits, none but the last creates on a Sunday, and no partition returns to its own
      detached table. */
  ghost predicate RunFits(cfg: Config, nows: seq<Time>) {
    (forall i :: 0 <= i < |nows| ==> Fits(cfg, nows, i))
    && (forall i :: 0 <= i < |nows| - 1 ==> !CreatesOnSunday(cfg, nows, i))
    && Allowed(cfg, nows)
  }

  lemma RunFitsStep(cfg: Config, nows: seq<Time>)
    requires nows != []
    ensures var init, now := nows[..|nows| - 1], nows[|nows| - 1];
            var es := Expectations(cfg, init);
            RunFits(cfg, nows)
            <==> RunFits(cfg, init) && !EndsOnSunday(cfg, init)
                 && Succeeds(cfg, Present(cfg, es), Detached(cfg, es), now)
  {
    hide Expected, Present, NeverReturns, Fits, CreatesOnSunday, Expectations, Succeeds, NamesOf;
    var l := |nows| - 1;
    assert nows[..l + 1] == nows;
    ReturnsOver(cfg, nows);
    forall i | 0 <= i < l
      ensures Fits(cfg, nows, i) == Fits(cfg, nows[..l], i)
      ensures CreatesOnSunday(cfg, nows, i) == CreatesOnSunday(cfg, nows[..l], i)
    {
      SameBefore(cfg, nows, l, i);
    }
    LastFits(cfg, nows);
  }

  lemma SameBefore(cfg: Config, nows: seq<Time>, l: nat, i: nat)
    requires i < l <= |nows|
    ensures Fits(cfg, nows, i) == Fits(cfg, nows[..l], i)
    ensures CreatesOnSunday(cfg, nows, i) == CreatesOnSunday(cfg, nows[..l], i)
  {
    hide Expected, SundayWeek, SundayClear, NamesDistinct, Present, NamesOf, Expectations;
    assert nows[..l][..i] == nows[..i];
  }

  lemma ReturnsOver(cfg: Config, nows: seq<Time>)
    requires nows != []
    ensures var l := |nows| - 1;
            Allowed(cfg, nows)
            <==> Allowed(cfg, nows[..l]) && New(cfg, nows, l) !! Detached(cfg, Expectations(cfg, nows[..l]))
  {
    hide Expected, Present, NeverReturns, NamesOf, Detached;
    var l := |nows| - 1;
    var es := Expectations(cfg, nows);
    assert es[..l] == Expectations(cfg, nows[..l]);
    NothingDetached(cfg, es[..l]);
    if !(cfg.drop || cfg.retain <= -1) {
      ReturnsStep(cfg, es);
    }
  }

  lemma LastFits(cfg: Config, nows: seq<Time>)
    requires nows != []
    ensures var l := |nows| - 1;
            var es := Expectations(cfg, nows[..l]);
            Succeeds(cfg, Present(cfg, es), Detached(cfg, es), nows[l])
            <==> Fits(cfg, nows, l) && New(cfg, nows, l) !! Detached(cfg, es)
  {
    hide Expected, Present, NamesOf, Detached, SundayClear, SundayWeek, NamesDistinct, Expectations;
  }

  lemma NothingDetached(cfg: Config, es: seq<set<string>>)
    ensures cfg.drop || cfg.retain <= -1 ==> Detached(cfg, es) == {}
  {}

  /** A run of checks from an empty catalogue, at any times and in any order, succeeds throughout exactly
      when it fits; it leaves the present and the detached, and unreadable rows exactly when it created
      some on a Sunday at the end. */
  lemma {:induction false} RunsExactly(cfg: Config, nows: seq<Time>)
    requires forall i :: 0 <= i < |nows| ==> InCalendar(cfg, nows[i])
    ensures var (c, ok) := Run(cfg, Catalog([], {}), nows);
            var es := Expectations(cfg, nows);
            (ok <==> RunFits(cfg, nows))
            && (ok ==> RowNames(c.rows) == Present(cfg, es) && c.tables == Detached(cfg, es)
                       && (Aligned(cfg, c) <==> !EndsOnSunday(cfg, nows))
                       && (ReadRows(cfg, c.rows).Ok? <==> !EndsOnSunday(cfg, nows)))
  {
    hide CheckSpec, InCalendar, SundayWeek, Expected, RunFits, Present, Detached, Succeeds, EndsOnSunday, ReadRows,
         Aligned, RowNames;
    if nows == [] {
      EmptyRun(cfg);
    } else {
      var init, now := nows[..|nows| - 1], nows[|nows| - 1];
      RunsExactly(cfg, init);
      RunFitsStep(cfg, nows);
      var (c, ok) := Run(cfg, Catalog([], {}), init);
      if ok {
        ReadableWhenOk(cfg, NO_FAULTS, c, now);
        if !EndsOnSunday(cfg, init) {
          CheckByNames(cfg, c, now);
          if CheckSpec(cfg, NO_FAULTS, c, now).1.Ok? {
            LastLeaves(cfg, nows, c);
          }
        }
      }
    }
  }

  lemma EmptyRun(cfg: Config)
    ensures RunFits(cfg, []) && !EndsOnSunday(cfg, []) && Aligned(cfg, Catalog([], {}))
    ensures ReadRows(cfg, []).Ok? && RowNames([]) == Present(cfg, []) && Detached(cfg, []) == {}
  {}

  /** The last successful check of a run, on whole intervals. */
  lemma LastLeaves(cfg: Config, nows: seq<Time>, c: Catalog)
    requires nows != [] && InCalendar(cfg, nows[|nows| - 1]) && Aligned(cfg, c)
    requires var es := Expectations(cfg, nows[..|nows| - 1]);
             RowNames(c.rows) == Present(cfg, es) && c.tables == Detached(cfg, es)
    requires CheckSpec(cfg, NO_FAULTS, c, nows[|nows| - 1]).1.Ok?
    ensures var c', es := CheckSpec(cfg, NO_FAULTS, c, nows[|nows| - 1]).0, Expectations(cfg, nows);
            RowNames(c'.rows) == Present(cfg, es) && c'.tables == Detached(cfg, es)
            && (Aligned(cfg, c') <==> !EndsOnSunday(cfg, nows))
            && (ReadRows(cfg, c'.rows).Ok? <==> !EndsOnSunday(cfg, nows))
  {
    hide CheckSpec, InCalendar, SundayWeek, Expected, ReadRows, Aligned, RowNames, NamesOf;
    var l := |nows| - 1;
    var now := nows[l];
    var c' := CheckSpec(cfg, NO_FAULTS, c, now).0;
    assert Expectations(cfg, nows)[..l] == Expectations(cfg, nows[..l]);
    CheckLeavesExpected(cfg, NO_FAULTS, c, now);
    NamesWithout(Expected(cfg, now), RowNames(c.rows));
    NoneNamed(Missing(cfg, c, now));
    if EndsOnSunday(cfg, nows) {
      SundaySticks(cfg, c, now);
    } else {
      CheckKeepsAligned(cfg, NO_FAULTS, c, now);
    }
    if Aligned(cfg, c') {
      AlignedReads(cfg, c');
    }
  }

  lemma NoneNamed(ps: seq<Partition>)
    ensures NamesOf(ps) == {} <==> ps == []
  {
    if ps != [] {
      assert ps[0].name in NamesOf(ps);
    }
  }
}
