/**
 Where the deletion journal gets stuck. An entry whose prune time was lost after its lifecycle rule
 was committed is retried for ever: adding the rule again is refused, so neither the entry nor the
 rule can ever go.
 */
module JournalStuck {
  import opened GoStrings
  import opened RuleJobs
  import opened Journal
  import opened JournalSafety

  /** Entry id waits, without a prune time, for a rule its bucket already has. */
  ghost predicate Stuck(s: State, name: string, ref: string, id: int) {
    id in s.journal && s.journal[id].backend == name && s.journal[id].ref == ref && s.journal[id].pruneAfter.None?
    && name in s.backends && s.backends[name].s3 && OneSlash(ref) && Plain(RuleID(ref))
    && RuleID(ref) in Ids(s.backends[name].rules)
  }

  /** One entry for each reference of a backend, and prefixes with one closing slash. */
  ghost predicate Clean(s: State, name: string) {
    Numbered(s)
    && (forall i :: i in s.journal && s.journal[i].backend == name ==> CleanRef(s.journal[i].ref))
    && (forall i, j :: i in s.journal && j in s.journal && SameRef(s.journal[i], s.journal[j], name) ==> i == j)
  }

  predicate SameRef(a: Entry, b: Entry, name: string) {
    a.backend == b.backend == name && a.ref == b.ref
  }

  predicate CleanRef(ref: string) {
    HasSuffix(ref, "/") ==> OneSlash(ref)
  }

  /** The job would still commit the rule. */
  ghost predicate Holds(job: Option<Job>, ruleID: string) {
    job.Some? ==> ruleID in job.value.ruleMap && ruleID in Ids(Kept(job.value.rules, job.value.dels))
  }

  // ---- Jobs keep the rule ------------------------------------------------------------------------------

  lemma StartHolds(b: Backend, ruleID: string)
    requires ruleID in Ids(b.rules)
    ensures Holds(Some(StartJob(b)), ruleID)
  {
    hide Kept, MapOf;
    KeptAll(b.rules, {});
  }

  lemma ConfigHolds(job: Job, ruleID: string)
    requires Holds(Some(job), ruleID)
    ensures ruleID in Ids(job.Config())
  {
    hide Kept;
    var r :| r in Kept(job.rules, job.dels) && r.id == ruleID;
    assert r in job.Config();
  }

  lemma AddHolds(j: Job, r: Rule, ruleID: string)
    requires Holds(Some(j), ruleID)
    ensures Holds(Some(j.Add(r).0), ruleID)
  {
    hide Kept;
  }

  lemma DeleteHolds(j: Job, other: string, ref: string)
    requires Holds(Some(j), RuleID(ref)) && OneSlash(ref) && OneSlash(other) && other != ref && Plain(RuleID(ref))
    ensures Holds(Some(j.Delete(RuleID(other))), RuleID(ref))
  {
    hide Kept, RuleID;
    var id, gone := RuleID(ref), Gone(j, RuleID(other));
    DeleteShape(j, RuleID(other));
    MarkerDiffers(RuleID(other));
    if RuleID(other) == id {
      RuleIDInjective(other, ref);
    }
    assert id !in gone;
    KeptTwice(j.rules, j.dels, gone);
    KeptMembers(Kept(j.rules, j.dels), gone);
    var r :| r in Kept(j.rules, j.dels) && r.id == id;
    assert r in Kept(j.rules, j.dels + gone);
  }

  /** Pruning another reference of the backend leaves the rule in force; pruning the stuck one again
      fails, because its rule is already there. */
  lemma PruneRefHolds(b: Backend, job: Option<Job>, other: string, pruneAfter: Option<int>, env: Env, ref: string)
    requires b.s3 && OneSlash(ref) && Plain(RuleID(ref)) && Holds(job, RuleID(ref)) && CleanRef(other)
    requires other == ref ==> pruneAfter.None?
    ensures var r := PruneRef(b, job, other, pruneAfter, env);
            Holds(r.1, RuleID(ref)) && r.0 == b.(objects := r.0.objects)
            && (other == ref ==> r.2.Failed?)
  {
    hide Holds, RuleID, Under, Job.Add, Job.Delete;
    SlashAtEnd(ref);
    if HasSuffix(other, "/") && job.Some? {
      AddHolds(job.value, job.value.RmRule(other), RuleID(ref));
      if other != ref {
        DeleteHolds(job.value, other, ref);
      } else {
        AddTwice(job.value, ref);
      }
    }
  }

  lemma SlashAtEnd(ref: string)
    requires OneSlash(ref)
    ensures HasSuffix(ref, "/")
  {}

  lemma AddTwice(j: Job, ref: string)
    requires Holds(Some(j), RuleID(ref))
    ensures !j.Add(j.RmRule(ref)).1
  {
    hide Kept;
  }

  lemma CommitHolds(s: State, name: string, job: Option<Job>, fails: bool, other: string, ref: string, id: int)
    requires Stuck(s, name, ref, id) && other in s.backends && (other == name ==> Holds(job, RuleID(ref)))
    ensures Stuck(CommitJob(s, other, job, fails), name, ref, id)
  {
    hide Holds, Job.Config, RuleID, Plain, OneSlash;
    if job.Some? && other == name {
      ConfigHolds(job.value, RuleID(ref));
    }
  }

  // ---- The collector ---------------------------------------------------------------------------------------

  ghost predicate StuckSweep(w: Sweep, name: string, ref: string, id: int) {
    w.Valid() && Stuck(w.s, name, ref, id) && (w.back == Some(name) ==> Holds(w.job, RuleID(ref)))
  }

  /** The row of the stuck entry, or of another reference. */
  ghost predicate RowApart(row: Row, name: string, ref: string, id: int) {
    if row.id == id then row.backend == name && row.ref == ref && row.pruneAfter.None?
    else row.backend == name ==> row.ref != ref && CleanRef(row.ref)
  }

  lemma SweepPruneStuck(w: Sweep, row: Row, env: Env, name: string, ref: string, id: int)
    requires StuckSweep(w, name, ref, id) && RowApart(row, name, ref, id) && w.back == Some(row.backend)
    ensures StuckSweep(SweepPrune(w, row, env), name, ref, id)
  {
    hide PruneRef, Holds, RuleID, Plain, OneSlash;
    if row.backend == name {
      PruneRefHolds(w.s.backends[name], w.job, row.ref, row.pruneAfter, env, ref);
    } else {
      PruneRefSafe(w.s.backends[row.backend], w.job, row.ref, row.pruneAfter, env);
    }
  }

  lemma SweepRowStuck(w: Sweep, row: Row, env: Env, name: string, ref: string, id: int)
    requires StuckSweep(w, name, ref, id) && RowApart(row, name, ref, id)
    ensures StuckSweep(SweepRow(w, row, env), name, ref, id)
  {
    hide SweepPrune, Holds, RuleID, Plain, OneSlash, RowApart, StartJob;
    TurnToStuck(w, row, env, name, ref, id);
    var w2 := TurnTo(w, row, env);
    if w2.back.Some? {
      hide TurnTo;
      var b := w2.s.backends[row.backend];
      var w3 := if w.back != Some(row.backend) && b.s3 then w2.(job := Some(StartJob(b))) else w2;
      if row.backend == name {
        StartHolds(b, RuleID(ref));
      }
      SweepPruneStuck(w3, row, env, name, ref, id);
    }
  }

  lemma TurnToStuck(w: Sweep, row: Row, env: Env, name: string, ref: string, id: int)
    requires StuckSweep(w, name, ref, id)
    ensures Stuck(TurnTo(w, row, env).s, name, ref, id)
    ensures w.back == Some(row.backend) ==> TurnTo(w, row, env) == w
    ensures w.back != Some(row.backend) ==> TurnTo(w, row, env).job.None?
    ensures StuckSweep(TurnTo(w, row, env), name, ref, id)
  {
    NoJobHolds(RuleID(ref));
    hide Holds, RuleID, Plain, OneSlash, CommitJob, Stuck;
    if w.job.Some? {
      CommitHolds(w.s, name, w.job, env.commitFails, w.back.value, ref, id);
    }
  }

  lemma NoJobHolds(ruleID: string)
    ensures Holds(None, ruleID)
  {}

  lemma {:induction false} SweepRowsStuck(w: Sweep, rows: seq<Row>, envs: seq<Env>, name: string, ref: string, id: int)
    requires |rows| == |envs| && StuckSweep(w, name, ref, id)
    requires forall i :: 0 <= i < |rows| ==> RowApart(rows[i], name, ref, id)
    ensures StuckSweep(SweepRows(w, rows, envs), name, ref, id)
  {
    hide SweepRow, StuckSweep, RowApart;
    assert w.Valid() by { StuckIsValid(w, name, ref, id); }
    if rows != [] {
      var n := |rows| - 1;
      SweepRowsStuck(w, rows[..n], envs[..n], name, ref, id);
      SweepRowStuck(SweepRows(w, rows[..n], envs[..n]), rows[n], envs[n], name, ref, id);
    }
  }

  lemma StuckIsValid(w: Sweep, name: string, ref: string, id: int)
    requires StuckSweep(w, name, ref, id)
    ensures w.Valid()
  {}

  lemma CollectStuck(s: State, rows: seq<Row>, envs: seq<Env>, commitFails: bool, name: string, ref: string, id: int)
    requires |rows| == |envs| && Stuck(s, name, ref, id) && Clean(s, name) && Snapshot(s, rows)
    ensures Stuck(Collect(s, rows, envs, commitFails).s, name, ref, id)
  {
    hide SweepRows, Stuck, CommitJob, Holds;
    forall i | 0 <= i < |rows| ensures RowApart(rows[i], name, ref, id) {
      SnapshotApart(s, rows, i, name, ref, id);
    }
    StuckStart(s, name, ref, id);
    SweepRowsStuck(StartSweep(s), rows, envs, name, ref, id);
    var w := SweepRows(StartSweep(s), rows, envs);
    if w.job.Some? {
      CommitHolds(w.s, name, w.job, commitFails, w.back.value, ref, id);
    }
  }

  lemma StuckStart(s: State, name: string, ref: string, id: int)
    requires Stuck(s, name, ref, id)
    ensures StuckSweep(StartSweep(s), name, ref, id)
  {
    hide Stuck;
  }

  lemma SnapshotApart(s: State, rows: seq<Row>, i: nat, name: string, ref: string, id: int)
    requires Stuck(s, name, ref, id) && Clean(s, name) && Snapshot(s, rows) && i < |rows|
    ensures RowApart(rows[i], name, ref, id)
  {
    hide RuleID, Plain, OneSlash;
  }

  // ---- Pruning again --------------------------------------------------------------------------------------------

  ghost predicate StuckPruning(p: Pruning, at: string, name: string, ref: string, id: int) {
    Stuck(p.s, name, ref, id) && Clean(p.s, name) && at in p.s.backends && (at == name ==> Holds(p.job, RuleID(ref)))
  }

  lemma AddDeleteStuck(s: State, at: string, prefix: string, name: string, ref: string, id: int)
    requires Stuck(s, name, ref, id) && Clean(s, name) && (at == name ==> CleanRef(prefix))
    ensures var (s1, n) := AddDelete(s, at, prefix);
            Stuck(s1, name, ref, id) && Clean(s1, name) && n != id
            && (n in s1.journal ==> s1.journal[n].backend == at && s1.journal[n].ref == prefix)
            && (at == name && prefix == ref ==> n !in s1.journal)
  {
    hide RuleID, Plain, OneSlash;
    if at == name && prefix == ref {
      assert HasEntry(s, at, prefix);
    }
    var s1 := AddDelete(s, at, prefix).0;
    if !HasEntry(s, at, prefix) {
      assert forall j :: j in s.journal && s.journal[j].backend == at ==> s.journal[j].ref != prefix;
    }
  }

  /** Statements on another entry change nothing that matters here. */
  lemma OtherEntry(s: State, at: string, b: Backend, n: int, env: Env, t: int, name: string, ref: string, id: int)
    requires Stuck(s, name, ref, id) && Clean(s, name) && n != id && at in s.backends
    requires at == name ==> b.s3 && RuleID(ref) in Ids(b.rules)
    ensures var s2 := SetBackend(s, at, b);
            Stuck(s2, name, ref, id) && Clean(s2, name)
            && Stuck(Increment(s2, n, env), name, ref, id) && Clean(Increment(s2, n, env), name)
            && Stuck(Update(s2, n, t), name, ref, id) && Clean(Update(s2, n, t), name)
            && Stuck(Drop(s2, n), name, ref, id) && Clean(Drop(s2, n), name)
  {
    hide RuleID, Plain, OneSlash, CleanRef;
  }

  lemma PruneOneStuck(p: Pruning, at: string, prefix: string, env: Env, name: string, ref: string, id: int)
    requires StuckPruning(p, at, name, ref, id) && (at == name ==> CleanRef(prefix))
    ensures StuckPruning(PruneOne(p, at, prefix, env), at, name, ref, id)
  {
    hide PruneRef, AddDelete, Stuck, Clean, Increment, Update, Drop, Holds, CleanRef, SetBackend;
    if !p.stopped && !env.addFails && !env.cancelled {
      var (s1, n) := AddDelete(p.s, at, prefix);
      AddDeleteStuck(p.s, at, prefix, name, ref, id);
      var b := s1.backends[at];
      var r := PruneRef(b, p.job, prefix, None, env);
      StuckBackend(s1, name, ref, id);
      if at == name {
        PruneRefHolds(b, p.job, prefix, None, env, ref);
      } else {
        PruneRefSafe(b, p.job, prefix, None, env);
      }
      OtherEntry(s1, at, r.0, n, env, if r.2.Again? then r.2.at else 0, name, ref, id);
    }
  }

  lemma StuckBackend(s: State, name: string, ref: string, id: int)
    requires Stuck(s, name, ref, id)
    ensures name in s.backends && s.backends[name].s3 && OneSlash(ref) && Plain(RuleID(ref))
    ensures RuleID(ref) in Ids(s.backends[name].rules)
  {}

  lemma {:induction false} PruneLoopStuck(p: Pruning, at: string, prefixes: seq<string>, envs: seq<Env>,
                                          name: string, ref: string, id: int)
    requires StuckPruning(p, at, name, ref, id) && |prefixes| == |envs| && at in p.s.backends
    requires at == name ==> forall i :: 0 <= i < |prefixes| ==> CleanRef(prefixes[i])
    ensures StuckPruning(PruneLoop(p, at, prefixes, envs), at, name, ref, id)
  {
    hide PruneOne, StuckPruning, CleanRef;
    if prefixes != [] {
      var n := |prefixes| - 1;
      PruneLoopStuck(p, at, prefixes[..n], envs[..n], name, ref, id);
      PruneOneStuck(PruneLoop(p, at, prefixes[..n], envs[..n]), at, prefixes[n], envs[n], name, ref, id);
    }
  }

  lemma PruneRefsStuck(s: State, at: string, prefixes: seq<string>, envs: seq<Env>, newJobFails: bool,
                       commitFails: bool,
                       name: string, ref: string, id: int)
    requires Stuck(s, name, ref, id) && Clean(s, name) && |prefixes| == |envs|
    requires at == name ==> forall i :: 0 <= i < |prefixes| ==> CleanRef(prefixes[i])
    ensures var r := PruneRefs(s, at, prefixes, envs, newJobFails, commitFails).0;
            Stuck(r, name, ref, id) && Clean(r, name)
  {
    hide PruneLoop, Stuck, Clean, Holds, StartJob, CleanRef;
    if at in s.backends {
      var b := s.backends[at];
      var p0 := Pruning(s, if b.s3 then Some(StartJob(b)) else None, {}, false);
      StuckBackend(s, name, ref, id);
      if at == name {
        StartHolds(b, RuleID(ref));
      }
      PruneLoopStuck(p0, at, prefixes, envs, name, ref, id);
      var p := PruneLoop(p0, at, prefixes, envs);
      CommitHolds(p.s, name, p.job, commitFails, at, ref, id);
      CommitClean(p.s, at, p.job, commitFails, name);
    }
  }

  lemma CommitClean(s: State, at: string, job: Option<Job>, fails: bool, name: string)
    requires at in s.backends && Clean(s, name)
    ensures Clean(CommitJob(s, at, job, fails), name)
  {
    hide CleanRef;
  }

  // ---- Runs ---------------------------------------------------------------------------------------------------------

  lemma CollectClean(s: State, rows: seq<Row>, envs: seq<Env>, commitFails: bool, name: string)
    requires |rows| == |envs| && Clean(s, name) && Snapshot(s, rows)
    ensures Clean(Collect(s, rows, envs, commitFails).s, name)
  {
    hide SweepRows, CommitJob, CleanRef;
    CollectGuards(s, rows, envs, commitFails, {});
    CollectEntries(s, rows, envs, commitFails);
  }

  lemma CollectEntries(s: State, rows: seq<Row>, envs: seq<Env>, commitFails: bool)
    requires |rows| == |envs| && Numbered(s) && Snapshot(s, rows)
    ensures SameEntries(s, Collect(s, rows, envs, commitFails).s)
  {
    hide SweepRows, CommitJob, Numbered;
    assert forall i :: 0 <= i < |rows| ==> Shows(s, rows[i]);
    SweepRowsGuards(StartSweep(s), rows, envs, {});
  }

  ghost predicate CleanStep(step: Step, name: string) {
    step.PruneStep? && step.name == name ==> forall i :: 0 <= i < |step.prefixes| ==> CleanRef(step.prefixes[i])
  }

  lemma StepStuck(h: History, step: Step, name: string, ref: string, id: int)
    requires Stuck(h.s, name, ref, id) && Clean(h.s, name) && CleanStep(step, name)
    ensures Stuck(Exec(h, step).s, name, ref, id) && Clean(Exec(h, step).s, name)
  {
    hide Collect, PruneRefs, RuleID, Plain, OneSlash, CleanRef;
    if Allowed(h, step) {
      match step
      case PruneStep(at, prefixes, envs, newJobFails, commitFails) =>
        PruneRefsStuck(h.s, at, prefixes, envs, newJobFails, commitFails, name, ref, id);
      case CollectStep(rows, envs, commitFails) =>
        CollectStuck(h.s, rows, envs, commitFails, name, ref, id);
        CollectClean(h.s, rows, envs, commitFails, name);
      case StoreStep(_, _) =>
      case RemoveStep(_, _) =>
    }
  }

  /** Once stuck, an entry stays in the journal and its rule in the bucket through every run, even
      after the last object under the reference is gone. */
  lemma {:induction false} StuckForever(h: History, steps: seq<Step>, name: string, ref: string, id: int)
    requires Stuck(h.s, name, ref, id) && Clean(h.s, name)
    requires forall i :: 0 <= i < |steps| ==> CleanStep(steps[i], name)
    ensures Stuck(ExecAll(h, steps).s, name, ref, id) && Clean(ExecAll(h, steps).s, name)
  {
    hide Stuck, Clean, Exec, CleanStep;
    if steps != [] {
      StuckForever(h, steps[..|steps| - 1], name, ref, id);
      StepStuck(ExecAll(h, steps[..|steps| - 1]), steps[|steps| - 1], name, ref, id);
    }
  }

  // ---- How it comes about -----------------------------------------------------------------------

  /** One prune of a fresh prefix leaves a stuck entry exactly when the entry was added, its prune time
      could not be recorded, and the job's rule was committed all the same; only then, or when the job or
      the entry could not be made, does it report an error. */
  lemma LostUpdateSticks(s: State, name: string, ref: string, env: Env, newJobFails: bool, commitFails: bool)
    requires Clean(s, name) && name in s.backends && s.backends[name].s3 && !s.backends[name].disablePrune
    requires OneSlash(ref) && Plain(RuleID(ref)) && !HasEntry(s, name, ref)
    requires RuleID(ref) !in Ids(s.backends[name].rules)
    ensures var r := PruneRefs(s, name, [ref], [env], newJobFails, commitFails);
            (Stuck(r.0, name, ref, s.next)
             <==> !newJobFails && !env.addFails && !env.cancelled && env.updateFails && !commitFails)
            && (r.1 <==> !newJobFails && !env.addFails && !env.cancelled && !env.updateFails)
  {
    hide Kept, MapOf, RuleID, Plain, OneSlash, HasEntry, Clean;
    assert s.next !in s.journal by {
      NextIsFree(s, name);
    }
    if !newJobFails {
      var b := s.backends[name];
      var j := StartJob(b);
      SlashAtEnd(ref);
      FreshRule(j, ref);
      var p0 := Pruning(s, Some(j), {}, false);
      assert [ref][..0] == [] && [env][..0] == [];
      var p := PruneOne(p0, name, ref, env);
      assert PruneLoop(p0, name, [ref], [env]) == p;
    }
  }

  lemma NextIsFree(s: State, name: string)
    requires Clean(s, name)
    ensures s.next !in s.journal
  {
    hide CleanRef;
  }

  /** A collected entry without a prune time, whose rule is not in the bucket, is stuck afterwards exactly
      when its job could be started, its new prune time could not be recorded, and the job was
      committed. */
  lemma LostCollectSticks(s: State, row: Row, env: Env, commitFails: bool)
    requires row.backend in s.backends && s.backends[row.backend].s3 && OneSlash(row.ref) && Plain(RuleID(row.ref))
    requires row.id in s.journal && s.journal[row.id].backend == row.backend && s.journal[row.id].ref == row.ref
    requires s.journal[row.id].pruneAfter.None? && row.pruneAfter.None?
    requires RuleID(row.ref) !in Ids(s.backends[row.backend].rules)
    ensures Stuck(Collect(s, [row], [env], commitFails).s, row.backend, row.ref, row.id)
       <==> !env.newJobFails && (env.updateFails || env.cancelled) && !commitFails
  {
    hide Kept, MapOf, RuleID, Plain, OneSlash;
    var j := StartJob(s.backends[row.backend]);
    SlashAtEnd(row.ref);
    FreshRule(j, row.ref);
    assert [row][..0] == [] && [env][..0] == [];
    var w := SweepRow(StartSweep(s), row, env);
    assert SweepRows(StartSweep(s), [row], [env]) == w;
    if !env.newJobFails {
      assert w.job == Some(j.Add(j.RmRule(row.ref)).0);
    }
  }

  lemma FreshRule(j: Job, ref: string)
    requires !j.Has(RuleID(ref))
    ensures var (j', ok) := j.Add(j.RmRule(ref)); ok && j'.Changed() && RuleID(ref) in Ids(j'.Config())
  {
    hide Kept, RuleID;
    var (j', ok) := j.Add(j.RmRule(ref));
    var r := j'.adds[|j'.adds| - 1];
    assert r.id == RuleID(ref) && r in j'.Config();
  }

  /** Without faults, a collected prefix without a prune time gets one exactly when its rule is not in
      the job yet. */
  lemma RowGetsPruneTime(w: Sweep, row: Row, env: Env)
    requires row.backend in w.s.backends && w.s.backends[row.backend].s3 && w.job.Some?
    requires row.id in w.s.journal && w.s.journal[row.id].pruneAfter.None? && row.pruneAfter.None? && OneSlash(row.ref)
    requires !env.cancelled && !env.updateFails && !env.dropFails
    ensures var r := SweepPrune(w, row, env);
            row.id in r.s.journal
            && (r.s.journal[row.id].pruneAfter.Some? <==> !w.job.value.Has(RuleID(row.ref)))
  {
    hide RuleID, OneSlash;
    SlashAtEnd(row.ref);
  }
}
