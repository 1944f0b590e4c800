/**
 What can become of one journal row or reference, whatever fails around it.
 */
module JournalOutcomes {
  import opened GoStrings
  import opened RuleJobs
  import opened Journal
  import opened JournalSafety
  import opened JournalProgress

  /** A reference names itself and, when it ends in a slash, everything that starts with it. */
  lemma UnderExactly(objects: set<string>, ref: string, o: string)
    ensures o in Under(objects, ref) <==>
      o in objects && (o == ref || (ref != "" && ref[|ref| - 1] == '/' && |ref| <= |o| && o[..|ref|] == ref))
  {
    if ref != "" {
      assert ref[|ref| - 1..] == [ref[|ref| - 1]];
    }
  }

  // ---- A row of the collector ------------------------------------------------------------------------------

  /** A prefix in S3, which a lifecycle rule empties; anything else is removed at once. */
  predicate ByRule(b: Backend, ref: string) {
    b.s3 && HasSuffix(ref, "/")
  }

  /** The row has no prune time, or it is over. */
  predicate Due(row: Row, env: Env) {
    row.pruneAfter.Some? ==> env.now > row.pruneAfter.value
  }

  /** The job knows the rule of the row's prefix. */
  predicate Ruled(w: Sweep, row: Row) {
    w.job.Some? && RuleID(row.ref) in w.job.value.ruleMap
  }

  /** A rule that has done its work is looked at: nothing is under the prefix any more. */
  predicate Emptied(w: Sweep, row: Row)
    requires row.backend in w.s.backends
  {
    Ruled(w, row) && row.pruneAfter.Some? && Under(w.s.backends[row.backend].objects, row.ref) == {}
  }

  /** The row's entry goes exactly when nothing fails on the way, its time is over, and what it names was
      removed or, for a prefix in S3, has been emptied by its rule. A single object in S3 does not wait. */
  predicate Goes(w: Sweep, row: Row, env: Env)
    requires row.backend in w.s.backends
  {
    !env.cancelled && !env.dropFails && !env.pruneFails
    && if ByRule(w.s.backends[row.backend], row.ref) then Due(row, env) && Emptied(w, row)
       else w.s.backends[row.backend].s3 || Due(row, env)
  }

  /** It waits for another five days exactly when it is a prefix in S3 that gets its rule, or that had it
      without being emptied, and the new time can be recorded. */
  predicate Waits(w: Sweep, row: Row, env: Env)
    requires row.backend in w.s.backends
  {
    ByRule(w.s.backends[row.backend], row.ref) && w.job.Some? && !env.cancelled && !env.updateFails
    && if Ruled(w, row) then row.pruneAfter.Some? && Due(row, env) && !env.pruneFails && !Emptied(w, row) else true
  }

  /** The attempt is counted as an error exactly when something failed, it was too early, or the rule is
      there without the entry having a time for it. */
  predicate Errs(w: Sweep, row: Row, env: Env)
    requires row.backend in w.s.backends
  {
    var b := w.s.backends[row.backend];
    if !b.s3 then !Due(row, env) || env.pruneFails
    else if !ByRule(b, row.ref) then env.pruneFails || env.cancelled
    else
      w.job.None?
      || (Ruled(w, row) && (row.pruneAfter.None? || !Due(row, env) || (env.pruneFails && !env.cancelled)))
  }

  /** The entry after its turn. */
  lemma EntryAfter(w: Sweep, row: Row, env: Env)
    requires row.backend in w.s.backends && row.id in w.s.journal
    ensures var r, e := SweepPrune(w, row, env), w.s.journal[row.id];
            r.s.journal
            == (if Goes(w, row, env) then w.s.journal - {row.id}
                else if Waits(w, row, env) then
                  w.s.journal[row.id := e.(pruneAfter := Some(env.now + FIVE_DAYS), tries := e.tries + 1)]
                else if Errs(w, row, env) && !env.incrementFails && !env.cancelled then
                  w.s.journal[row.id := e.(tries := e.tries + 1)]
                else w.s.journal)
            && r.count == w.count + (if Goes(w, row, env) then 1 else 0)
            && r.attempted == w.attempted + (if Goes(w, row, env) || Waits(w, row, env) then 1 else 0)
            && r.errCounts
               == (if Errs(w, row, env) then w.errCounts[row.backend := ErrCount(w, row.backend) + 1] else w.errCounts)
  {
    hide Under, Files, RuleID, HasSuffix, Job.Add, Job.Delete;
    if w.job.Some? {
      AddAnswers(w.job.value, row.ref);
    }
  }

  lemma AddAnswers(j: Job, ref: string)
    ensures j.Add(j.RmRule(ref)).1 <==> RuleID(ref) !in j.ruleMap
  {
    hide RuleID;
  }

  /** The objects after its turn: none goes before its time, nor under a prefix in S3; what is named goes
      otherwise, or, when the removal fails, as much as it reached. */
  lemma ObjectsAfter(w: Sweep, row: Row, env: Env, o: string)
    requires row.backend in w.s.backends
    ensures var r, b := SweepPrune(w, row, env), w.s.backends[row.backend];
            r.s.backends.Keys == w.s.backends.Keys
            && (forall name :: name in w.s.backends && name != row.backend ==>
                  r.s.backends[name] == w.s.backends[name])
            && (o in r.s.backends[row.backend].objects <==>
                  o in b.objects
                  && !(Taken(b, row.ref, o) && (b.s3 || Due(row, env))
                       && (env.pruneFails || (b.s3 && env.cancelled) ==> o in env.removed)))
  {
    hide Under, TrimRight, RuleID, HasSuffix, Job.Add, Job.Delete;
  }

  // ---- One reference of PruneBackendRefs -------------------------------------------------------------------

  /** Pruning one of a backend's references stops the loop exactly when its entry cannot be added, or its
      prune time or its removal cannot be recorded; the reference is journalled in all but the first case,
      and then has an entry unless it was removed and the entry dropped. */
  lemma PruneOneStops(p: Pruning, name: string, ref: string, env: Env)
    requires name in p.s.backends && !p.stopped
    ensures var r, b := PruneOne(p, name, ref, env), p.s.backends[name];
            var ruled := p.job.Some? && RuleID(ref) in p.job.value.ruleMap;
            (r.stopped <==>
               env.addFails || env.cancelled
               || (if ByRule(b, ref) then p.job.Some? && !ruled && env.updateFails
                   else !env.pruneFails && env.dropFails))
            && (r.journalled == p.journalled + if env.addFails || env.cancelled then {} else {(name, ref)})
            && (r.stopped && (env.addFails || env.cancelled) ==> r == p.(stopped := true))
  {
    hide Under, Files, RuleID, HasSuffix, Job.Add, Job.Delete, HasEntry, Increment, Update, Drop;
    if p.job.Some? {
      AddAnswers(p.job.value, ref);
    }
  }

  /** An entry that cannot be dropped stays, with what it names gone. */
  lemma LostDropStays(p: Pruning, name: string, ref: string, env: Env)
    requires name in p.s.backends && !p.stopped && !ByRule(p.s.backends[name], ref)
    requires !env.addFails && !env.cancelled && !env.pruneFails && env.dropFails
    ensures var r := PruneOne(p, name, ref, env);
            HasEntry(r.s, name, ref) && Under(r.s.backends[name].objects, ref) == {}
  {
    hide Under, Files, RuleID, HasSuffix, Taken;
    var s1, b := AddDelete(p.s, name, ref).0, p.s.backends[name];
    TakenAre(b, ref);
    NothingUnder(b, ref, b.objects);
    if HasEntry(p.s, name, ref) {
      var id :| id in p.s.journal && p.s.journal[id].backend == name && p.s.journal[id].ref == ref;
      assert id in s1.journal && s1.journal[id].backend == name && s1.journal[id].ref == ref;
    } else {
      assert s1.journal[p.s.next].backend == name && s1.journal[p.s.next].ref == ref;
    }
    assert PruneOne(p, name, ref, env).s.journal == s1.journal;
  }

  /** No backend of that name is an error, one with pruning disabled is none, and a job that cannot be
      started is one; none of them touches anything. */
  lemma NothingPruned(s: State, name: string, refs: seq<string>, envs: seq<Env>, newJobFails: bool, commitFails: bool)
    requires |refs| == |envs|
    requires name !in s.backends || s.backends[name].disablePrune || (s.backends[name].s3 && newJobFails)
    ensures var (r, ok, journalled) := PruneRefs(s, name, refs, envs, newJobFails, commitFails);
            r == s && journalled == {} && (ok <==> name in s.backends && s.backends[name].disablePrune)
  {
    hide PruneLoop;
  }

  // ---- A job that cannot be started --------------------------------------------------------------------------

  /** The rows of one S3 backend, whose job cannot be started at the first of them. */
  ghost predicate JobLost(s: State, rows: seq<Row>, envs: seq<Env>, name: string) {
    |rows| == |envs| && name in s.backends && s.backends[name].s3 && Snapshot(s, rows)
    && (forall i :: 0 <= i < |rows| ==> rows[i].backend == name) && rows != [] && envs[0].newJobFails
  }

  ghost predicate OnlyTried(s: State, rows: seq<Row>, envs: seq<Env>, name: string, n: nat, w: Sweep)
    requires |rows| == |envs|
  {
    w.Valid() && w.job.None? && w.s.backends == s.backends && w.attempted == w.count == 0
    && (n == 0 ==> w.back.None? && name !in w.jobErrors) && (n > 0 ==> w.back == Some(name) && name in w.jobErrors)
    && w.s.journal.Keys == s.journal.Keys
    && forall i :: 0 <= i < |rows| && rows[i].id in s.journal ==>
         w.s.journal[rows[i].id]
         == s.journal[rows[i].id].(tries := s.journal[rows[i].id].tries
                                            + (if i < n && !envs[i].incrementFails && !envs[i].cancelled then 1 else 0))
  }

  lemma LostJobStep(s: State, rows: seq<Row>, envs: seq<Env>, name: string, n: nat, w: Sweep)
    requires JobLost(s, rows, envs, name) && n < |rows| && OnlyTried(s, rows, envs, name, n, w)
    ensures w.Valid() && OnlyTried(s, rows, envs, name, n + 1, SweepRow(w, rows[n], envs[n]))
  {
    hide SweepDue, StartJob;
    assert rows[n].id in s.journal;
    assert SweepRow(w, rows[n], envs[n]).s == Increment(w.s, rows[n].id, envs[n]);
  }

  lemma {:induction false} LostJobSweep(s: State, rows: seq<Row>, envs: seq<Env>, name: string, n: nat)
    requires JobLost(s, rows, envs, name) && n <= |rows| == |envs|
    ensures OnlyTried(s, rows, envs, name, n, SweepRows(StartSweep(s), rows[..n], envs[..n]))
  {
    hide SweepRow, JobLost;
    if n > 0 {
      LostJobSweep(s, rows, envs, name, n - 1);
      assert rows[..n][..n - 1] == rows[..n - 1] && envs[..n][..n - 1] == envs[..n - 1];
      LostJobStep(s, rows, envs, name, n - 1, SweepRows(StartSweep(s), rows[..n - 1], envs[..n - 1]));
    }
  }

  /** A backend whose job cannot be started is not touched for the rest of the pass; each of its rows counts
      as tried. */
  lemma LostJobStops(s: State, rows: seq<Row>, envs: seq<Env>, name: string, commitFails: bool)
    requires JobLost(s, rows, envs, name)
    ensures var w := Collect(s, rows, envs, commitFails);
            w.s.backends == s.backends && w.s.journal.Keys == s.journal.Keys && w.count == w.attempted == 0
            && forall i :: 0 <= i < |rows| ==>
                 w.s.journal[rows[i].id]
                 == s.journal[rows[i].id].(tries := s.journal[rows[i].id].tries
                                                    + (if envs[i].incrementFails || envs[i].cancelled then 0 else 1))
  {
    hide SweepRows;
    LostJobSweep(s, rows, envs, name, |rows|);
    assert rows[..|rows|] == rows && envs[..|rows|] == envs;
  }
}
