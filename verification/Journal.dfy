/**
 The journal of audio deletions: pruning by prefix (PruneBackendRefs of
 pkg/calls/callstore/audio.go), its garbage collector (pkg/calls/callstore/journal.go), and what the
 S3 and file-system backends do for them. Every remote operation fails at the environment's will.
 */
module Journal {
  import opened GoStrings
  import opened RuleJobs

  // A delete entry; creates have no reference and the collector never selects them.
  datatype Entry = Entry(backend: string, ref: string, pruneAfter: Option<int>, tries: int)

  datatype Backend = Backend(s3: bool, isB2: bool, legacyPrefix: bool, disablePrune: bool,
                             objects: set<string>, rules: seq<Rule>)

  datatype State = State(journal: map<int, Entry>, next: int, backends: map<string, Backend>)

  const FIVE_DAYS := 5 * 24 * 60 * 60
  const ERR_THRESHOLD := 4

  // What happens around one journal row or prefix: the time, whether the context is cancelled, which
  // operations fail, what a failing removal removed all the same, and whether a listing that was cut
  // short by the cancellation had seen an object.
  datatype Env = Env(now: int, cancelled: bool, newJobFails: bool, addFails: bool, pruneFails: bool, updateFails: bool,
                     dropFails: bool, incrementFails: bool, commitFails: bool, removed: set<string>, seen: bool)

  datatype Outcome = Failed | Again(at: int) | Done

  // ---- Pruning one reference -------------------------------------------------------------------------

  /** The objects a reference names: itself, or everything under a prefix. */
  function Under(objects: set<string>, ref: string): set<string> {
    set o | o in objects && (o == ref || (HasSuffix(ref, "/") && HasPrefix(o, ref)))
  }

  /** The files the file-system backend removes for a reference. */
  function Files(objects: set<string>, ref: string): set<string> {
    set o | o in objects && (o == ref || HasPrefix(o, TrimRight(ref, '/') + "/"))
  }

  function PruneS3(b: Backend, job: Option<Job>, ref: string, pruneAfter: Option<int>, env: Env)
    : (r: (Backend, Option<Job>, Outcome))
  {
    if !HasSuffix(ref, "/") then
      if env.pruneFails || env.cancelled then (b.(objects := b.objects - ({ref} * env.removed)), job, Failed)
      else (b.(objects := b.objects - {ref}), job, Done)
    else if job.None? then (b, job, Failed)
    else
      var j := job.value;
      var later := env.now + FIVE_DAYS;
      if j.Has(RuleID(ref)) && pruneAfter.Some? then
        if env.now <= pruneAfter.value then (b, job, Failed)
        else if env.pruneFails && !env.cancelled then (b, job, Failed)
        else if Under(b.objects, ref) != {} && (env.cancelled ==> env.seen) then (b, job, Again(later))
        else (b, Some(j.Delete(RuleID(ref))), Done)
      else
        var (j', ok) := j.Add(j.RmRule(ref));
        if ok then (b, Some(j'), Again(later)) else (b, job, Failed)
  }

  function PruneFs(b: Backend, ref: string, pruneAfter: Option<int>, env: Env): (r: (Backend, Outcome)) {
    if pruneAfter.Some? && env.now <= pruneAfter.value then (b, Failed)
    else if env.pruneFails then (b.(objects := b.objects - (Files(b.objects, ref) * env.removed)), Failed)
    else (b.(objects := b.objects - Files(b.objects, ref)), Done)
  }

  function PruneRef(b: Backend, job: Option<Job>, ref: string, pruneAfter: Option<int>, env: Env)
    : (r: (Backend, Option<Job>, Outcome))
  {
    if b.s3 then PruneS3(b, job, ref, pruneAfter, env)
    else
      var (b', out) := PruneFs(b, ref, pruneAfter, env);
      (b', job, out)
  }

  // ---- Journal statements ------------------------------------------------------------------------------

  function Increment(s: State, id: int, env: Env): (r: State)
    ensures r.next == s.next && r.backends == s.backends
  {
    if id in s.journal && !env.incrementFails && !env.cancelled
    then s.(journal := s.journal[id := s.journal[id].(tries := s.journal[id].tries + 1)])
    else s
  }

  function Update(s: State, id: int, at: int): (r: State)
    ensures r.next == s.next && r.backends == s.backends
  {
    if id in s.journal
    then s.(journal := s.journal[id := s.journal[id].(pruneAfter := Some(at), tries := s.journal[id].tries + 1)])
    else s
  }

  function Drop(s: State, id: int): (r: State)
    ensures r.next == s.next && r.backends == s.backends
  {
    s.(journal := s.journal - {id})
  }

  predicate HasEntry(s: State, backend: string, ref: string) {
    exists id :: id in s.journal && s.journal[id].backend == backend && s.journal[id].ref == ref
  }

  /** An insert of a backend and reference the journal has violates a constraint, and the caller goes
      on with entry 0. */
  function AddDelete(s: State, backend: string, ref: string): (r: (State, int))
    ensures r.0.backends == s.backends
  {
    if HasEntry(s, backend, ref) then (s, 0)
    else (s.(journal := s.journal[s.next := Entry(backend, ref, None, 1)], next := s.next + 1), s.next)
  }

  function SetBackend(s: State, name: string, b: Backend): State {
    s.(backends := s.backends[name := b])
  }

  function StartJob(b: Backend): Job {
    NewJob(b.isB2, b.legacyPrefix, b.rules)
  }

  /** Commits a job's configuration to its bucket, if it changed anything. */
  function CommitJob(s: State, name: string, job: Option<Job>, fails: bool): State
    requires name in s.backends
  {
    if job.Some? && job.value.Changed() && !fails
    then SetBackend(s, name, s.backends[name].(rules := job.value.Config()))
    else s
  }

  // ---- PruneBackendRefs ----------------------------------------------------------------------------------

  // The loop over the prefixes: the store, the job, what was journalled, and whether an error ended it.
  datatype Pruning = Pruning(s: State, job: Option<Job>, journalled: set<(string, string)>, stopped: bool)

  function PruneOne(p: Pruning, name: string, prefix: string, env: Env): (r: Pruning)
    requires name in p.s.backends
    ensures r.s.backends.Keys == p.s.backends.Keys
  {
    if p.stopped then p
    else if env.addFails || env.cancelled then p.(stopped := true)
    else
      var (s1, id) := AddDelete(p.s, name, prefix);
      var (b, job, out) := PruneRef(s1.backends[name], p.job, prefix, None, env);
      var s2 := SetBackend(s1, name, b);
      var noted := p.journalled + {(name, prefix)};
      match out
      case Failed => Pruning(Increment(s2, id, env), job, noted, false)
      case Again(at) => if env.updateFails then Pruning(s2, job, noted, true)
                        else Pruning(Update(s2, id, at), job, noted, false)
      case Done => if env.dropFails then Pruning(s2, job, noted, true) else Pruning(Drop(s2, id), job, noted, false)
  }

  /** What was journalled before does not change what one turn does, and a stopped loop does nothing. */
  lemma PruneOneNoted(p: Pruning, name: string, prefix: string, env: Env)
    requires name in p.s.backends
    ensures p.stopped ==> PruneOne(p, name, prefix, env) == p
    ensures !p.stopped ==>
      var q := PruneOne(p.(journalled := {}), name, prefix, env);
      PruneOne(p, name, prefix, env) == q.(journalled := p.journalled + q.journalled)
  {
    hide PruneRef, AddDelete, Increment, Update, Drop;
  }

  lemma NoJobNoCommit(s: State, name: string, fails: bool)
    requires name in s.backends
    ensures CommitJob(s, name, None, fails) == s
  {}

  function PruneLoop(p: Pruning, name: string, prefixes: seq<string>, envs: seq<Env>): (r: Pruning)
    requires name in p.s.backends && |prefixes| == |envs|
    ensures r.s.backends.Keys == p.s.backends.Keys
  {
    if prefixes == [] then p
    else
      PruneOne(PruneLoop(p, name, prefixes[..|prefixes| - 1], envs[..|envs| - 1]), name,
               prefixes[|prefixes| - 1], envs[|envs| - 1])
  }

  /** PruneBackendRefs. The deferred commit closes over an inner error variable, so it always commits
      and its own error is never reported. */
  function PruneRefs(s: State, name: string, prefixes: seq<string>, envs: seq<Env>, newJobFails: bool,
                     commitFails: bool)
    : (r: (State, bool, set<(string, string)>))
    requires |prefixes| == |envs|
    ensures r.0.backends.Keys == s.backends.Keys
  {
    if name !in s.backends then (s, false, {})
    else if s.backends[name].disablePrune then (s, true, {})
    else
      var b := s.backends[name];
      if b.s3 && newJobFails then (s, false, {})
      else
        var p := PruneLoop(Pruning(s, if b.s3 then Some(StartJob(b)) else None, {}, false), name, prefixes, envs);
        (CommitJob(p.s, name, p.job, commitFails), !p.stopped, p.journalled)
  }

  // ---- GC ---------------------------------------------------------------------------------------------------

  // A row as the collector's query returned it.
  datatype Row = Row(id: int, backend: string, ref: string, pruneAfter: Option<int>)

  datatype Sweep = Sweep(s: State, back: Option<string>, job: Option<Job>, errCounts: map<string, int>,
                         jobErrors: set<string>, count: int, attempted: int)
  {
    predicate Valid() {
      (back.Some? ==> back.value in s.backends) && (job.Some? ==> back.Some?)
    }
  }

  function ErrCount(w: Sweep, name: string): int {
    if name in w.errCounts then w.errCounts[name] else 0
  }

  function CommitSweep(w: Sweep, fails: bool): (r: Sweep)
    requires w.Valid()
    ensures r.job.None? && r.Valid() && r.s.backends.Keys == w.s.backends.Keys
    ensures r.s.journal == w.s.journal && r.s.next == w.s.next
  {
    if w.job.None? then w else w.(s := CommitJob(w.s, w.back.value, w.job, fails), job := None)
  }

  function IncrementTries(w: Sweep, row: Row, env: Env): Sweep {
    w.(errCounts := w.errCounts[row.backend := ErrCount(w, row.backend) + 1], s := Increment(w.s, row.id, env))
  }

  /** The row's own prune and what follows from it. */
  function SweepPrune(w: Sweep, row: Row, env: Env): (r: Sweep)
    requires row.backend in w.s.backends
  {
    var (b, job, out) := PruneRef(w.s.backends[row.backend], w.job, row.ref, row.pruneAfter, env);
    var w1 := w.(s := SetBackend(w.s, row.backend, b), job := job);
    match out
    case Failed => IncrementTries(w1, row, env)
    case Again(at) =>
      if env.updateFails || env.cancelled then w1
      else w1.(s := Update(w1.s, row.id, at), attempted := w1.attempted + 1)
    case Done =>
      if env.dropFails || env.cancelled then w1
      else w1.(s := Drop(w1.s, row.id), count := w1.count + 1, attempted := w1.attempted + 1)
  }

  /** The counters only add up what the row itself does. */
  lemma SweepPruneCounts(w: Sweep, row: Row, env: Env)
    requires row.backend in w.s.backends
    ensures var r := SweepPrune(Sweep(w.s, w.back, w.job, map[], {}, 0, 0), row, env);
            SweepPrune(w, row, env)
            == Sweep(r.s, w.back, r.job,
                     if row.backend in r.errCounts then w.errCounts[row.backend := ErrCount(w, row.backend) + 1]
                     else w.errCounts,
                     w.jobErrors, w.count + r.count, w.attempted + r.attempted)
  {
    hide PruneRef, Increment, Update, Drop;
  }

  /** A row of another backend commits the last job; back is None if there is no such backend. */
  function TurnTo(w: Sweep, row: Row, env: Env): (r: Sweep)
    requires w.Valid()
    ensures r.Valid() && r.s.backends.Keys == w.s.backends.Keys
    ensures r.back == if row.backend in w.s.backends then Some(row.backend) else None
  {
    if w.back == Some(row.backend) then w
    else
      var w1 := CommitSweep(w, env.commitFails);
      w1.(back := if row.backend in w1.s.backends then Some(row.backend) else None)
  }

  /** A row of a new backend commits the last job and starts one; a backend whose job could not be
      started, or with too many errors, is passed over. */
  function SweepRow(w: Sweep, row: Row, env: Env): (r: Sweep)
    requires w.Valid()
    ensures r.Valid() && r.s.backends.Keys == w.s.backends.Keys
  {
    var isNew := w.back != Some(row.backend);
    var w2 := TurnTo(w, row, env);
    if w2.back.None? then w2
    else if row.backend in w2.jobErrors then IncrementTries(w2, row, env)
    else if isNew && w2.s.backends[row.backend].s3 && env.newJobFails then
      IncrementTries(w2.(jobErrors := w2.jobErrors + {row.backend}), row, env)
    else
      var b := w2.s.backends[row.backend];
      var w3 := if isNew && b.s3 then w2.(job := Some(StartJob(b))) else w2;
      SweepDue(w3, row, env)
  }

  /** The row's prune, unless its backend has had too many errors. */
  function SweepDue(w: Sweep, row: Row, env: Env): (r: Sweep)
    requires w.Valid() && row.backend in w.s.backends
    ensures r.Valid() && r.s.backends.Keys == w.s.backends.Keys
  {
    if ErrCount(w, row.backend) > ERR_THRESHOLD then w else SweepPrune(w, row, env)
  }

  function SweepRows(w: Sweep, rows: seq<Row>, envs: seq<Env>): (r: Sweep)
    requires w.Valid() && |rows| == |envs|
    ensures r.Valid() && r.s.backends.Keys == w.s.backends.Keys
  {
    if rows == [] then w
    else SweepRow(SweepRows(w, rows[..|rows| - 1], envs[..|envs| - 1]), rows[|rows| - 1], envs[|envs| - 1])
  }

  function StartSweep(s: State): (w: Sweep)
    ensures w.Valid()
  {
    Sweep(s, None, None, map[], {}, 0, 0)
  }

  function Collect(s: State, rows: seq<Row>, envs: seq<Env>, commitFails: bool): (r: Sweep)
    requires |rows| == |envs|
    ensures r.s.backends.Keys == s.backends.Keys
  {
    CommitSweep(SweepRows(StartSweep(s), rows, envs), commitFails)
  }

  // ---- The imperative form --------------------------------------------------------------------------------------

  class Callstore {
    var journal: map<int, Entry>
    var next: int
    var backends: map<string, Backend>

    ghost function Abs(): State
      reads this
    {
      State(journal, next, backends)
    }

    ghost function JobOf(pj: RuleJob?): (j: Option<Job>)
      reads pj, if pj != null then {pj.rules} else {}
    {
      if pj == null then None else Some(pj.Abs())
    }

    /** Prune of the backend's kind. */
    method Prune(name: string, pj: RuleJob?, ref: string, pruneAfter: Option<int>, env: Env) returns (out: Outcome)
      requires name in backends
      modifies this`backends, pj
      ensures pj != null ==> pj.rules == old(pj.rules)
      ensures var r := PruneRef(old(backends)[name], old(JobOf(pj)), ref, pruneAfter, env);
              backends == old(backends)[name := r.0] && JobOf(pj) == r.1 && out == r.2
    {
      hide Under, RuleID, HasSuffix, Job.Delete, Job.RmRule, PruneFs;
      var b := backends[name];
      if !b.s3 {
        var r := PruneFs(b, ref, pruneAfter, env);
        backends := backends[name := r.0];
        return r.1;
      }
      backends := backends[name := b];
      if !HasSuffix(ref, "/") {
        var failed := env.pruneFails || env.cancelled;
        backends := backends[name := b.(objects := b.objects - (if failed then {ref} * env.removed else {ref}))];
        return if failed then Failed else Done;
      }
      if pj == null {
        return Failed;
      }
      var newPruneAfter := env.now + FIVE_DAYS;
      if RuleID(ref) in pj.ruleMap && pruneAfter.Some? {
        if !(env.now > pruneAfter.value) {
          return Failed;
        }
        if env.pruneFails && !env.cancelled {
          return Failed;
        }
        var exists_ := Under(b.objects, ref) != {} && (env.cancelled ==> env.seen);
        if exists_ {
          return Again(newPruneAfter);
        }
        pj.PruneRmRule(ref);
        return Done;
      }
      var ok := pj.AddRmRule(ref);
      out := if ok then Again(newPruneAfter) else Failed;
    }

    method CommitPruneJob(name: string, pj: RuleJob, fails: bool)
      requires name in backends
      modifies this`backends, pj`rules, pj.rules
      ensures Abs() == CommitJob(old(Abs()), name, old(JobOf(pj)), fails)
    {
      if pj.adds == [] && pj.dels == {} {
        return;
      }
      var config := pj.LifecycleConfig();
      if !fails {
        backends := backends[name := backends[name].(rules := config)];
      }
    }

    /** One turn of the loop of PruneBackendRefs. */
    method PruneOnePrefix(name: string, pj: RuleJob?, prefix: string, env: Env) returns (ok: bool)
      requires name in backends
      modifies this, pj
      ensures pj != null ==> pj.rules == old(pj.rules)
      ensures var p := PruneOne(Pruning(old(Abs()), old(JobOf(pj)), {}, false), name, prefix, env);
              Abs() == p.s && JobOf(pj) == p.job && ok == !p.stopped
    {
      hide PruneRef, HasEntry, AddDelete, Increment, Update, Drop;
      if env.addFails || env.cancelled {
        return false;
      }
      var r := AddDelete(State(journal, next, backends), name, prefix);
      journal, next := r.0.journal, r.0.next;
      var id := r.1;
      var out := Prune(name, pj, prefix, None, env);
      match out
      case Failed =>
        journal := Increment(State(journal, next, backends), id, env).journal;
        return true;
      case Again(at) =>
        if env.updateFails {
          return false;
        }
        journal := Update(State(journal, next, backends), id, at).journal;
        return true;
      case Done =>
        if env.dropFails {
          return false;
        }
        journal := Drop(State(journal, next, backends), id).journal;
        return true;
    }

    method PruneBackendRefs(name: string, prefixes: seq<string>, envs: seq<Env>, newJobFails: bool, commitFails: bool)
      returns (ok: bool)
      requires |prefixes| == |envs|
      modifies this
      ensures var r := PruneRefs(old(Abs()), name, prefixes, envs, newJobFails, commitFails); Abs() == r.0 && ok == r.1
    {
      if name !in backends {
        return false;
      }
      if backends[name].disablePrune {
        return true;
      }
      var pj: RuleJob? := null;
      if backends[name].s3 {
        if newJobFails {
          return false;
        }
        pj := new RuleJob(backends[name].isB2, backends[name].legacyPrefix, backends[name].rules);
      }
      ghost var p0 := Pruning(Abs(), JobOf(pj), {}, false);
      ghost var p := p0;
      hide PruneOne, CommitJob;
      ok := true;
      for i := 0 to |prefixes|
        invariant pj != null ==> fresh(pj) && fresh(pj.rules)
        invariant (pj != null) == old(backends)[name].s3
        invariant name in backends
        invariant p == PruneLoop(p0, name, prefixes[..i], envs[..i])
        invariant p.s == Abs() && p.job == JobOf(pj) && p.stopped == !ok
      {
        assert prefixes[..i + 1][..i] == prefixes[..i] && envs[..i + 1][..i] == envs[..i];
        PruneOneNoted(p, name, prefixes[i], envs[i]);
        p := PruneOne(p, name, prefixes[i], envs[i]);
        if ok {
          ok := PruneOnePrefix(name, pj, prefixes[i], envs[i]);
        }
      }
      assert prefixes[..|prefixes|] == prefixes && envs[..|envs|] == envs;
      if pj != null {
        CommitPruneJob(name, pj, commitFails);
      } else {
        NoJobNoCommit(Abs(), name, commitFails);
      }
    }

    /** The prune of one row of the collector, and the journal statement that follows. */
    method CollectRow(row: Row, pj: RuleJob?, env: Env) returns (failed: bool, dropped: bool, updated: bool)
      requires row.backend in backends
      modifies this, pj
      ensures pj != null ==> pj.rules == old(pj.rules)
      ensures var r := SweepPrune(Sweep(old(Abs()), Some(row.backend), old(JobOf(pj)), map[], {}, 0, 0), row, env);
              Abs() == r.s && JobOf(pj) == r.job && (failed <==> row.backend in r.errCounts)
              && r.count == (if dropped then 1 else 0) && r.attempted == (if dropped || updated then 1 else 0)
    {
      hide PruneRef, Increment, Update, Drop;
      failed, dropped, updated := false, false, false;
      var out := Prune(row.backend, pj, row.ref, row.pruneAfter, env);
      match out
      case Failed =>
        failed := true;
        journal := Increment(State(journal, next, backends), row.id, env).journal;
      case Again(at) =>
        if !(env.updateFails || env.cancelled) {
          journal := Update(State(journal, next, backends), row.id, at).journal;
          updated := true;
        }
      case Done =>
        if !(env.dropFails || env.cancelled) {
          journal := Drop(State(journal, next, backends), row.id).journal;
          dropped := true;
        }
    }

    /** A row's turn once its backend is ready: passed over after too many errors, else collected. */
    method CollectDue(row: Row, env: Env, ghost back: Option<string>, pj: RuleJob?, errCounts: map<string, int>,
                      ghost jobErrors: set<string>,
                      count: int, attempted: int)
      returns (errCounts': map<string, int>, count': int, attempted': int)
      requires row.backend in backends && back == Some(row.backend)
      modifies this, pj
      ensures pj != null ==> pj.rules == old(pj.rules)
      ensures Sweep(Abs(), back, JobOf(pj), errCounts', jobErrors, count', attempted')
           == SweepDue(Sweep(old(Abs()), back, old(JobOf(pj)), errCounts, jobErrors, count, attempted), row, env)
    {
      hide PruneRef, SweepPrune, Increment, Update, Drop, HasEntry;
      errCounts', count', attempted' := errCounts, count, attempted;
      var errors := if row.backend in errCounts then errCounts[row.backend] else 0;
      if errors > ERR_THRESHOLD {
        return;
      }
      SweepPruneCounts(Sweep(Abs(), back, JobOf(pj), errCounts, jobErrors, count, attempted), row, env);
      var failed, dropped, updated := CollectRow(row, pj, env);
      if failed {
        errCounts' := errCounts[row.backend := errors + 1];
      }
      if dropped {
        count' := count + 1;
      }
      if dropped || updated {
        attempted' := attempted + 1;
      }
    }

    /** The commit of the last backend's job when a row is of another. */
    method TurnToBackend(row: Row, env: Env, back: Option<string>, pj: RuleJob?, ghost errCounts: map<string, int>,
                         ghost jobErrors: set<string>, ghost count: int, ghost attempted: int)
      returns (back': Option<string>, pj': RuleJob?)
      requires (back.Some? ==> back.value in backends) && (pj != null ==> back.Some?)
      modifies this`backends, pj, if pj != null then {pj.rules} else {}
      ensures pj' != null ==> pj' == pj && pj.rules == old(pj.rules)
      ensures Sweep(Abs(), back', JobOf(pj'), errCounts, jobErrors, count, attempted)
           == TurnTo(Sweep(old(Abs()), back, old(JobOf(pj)), errCounts, jobErrors, count, attempted), row, env)
    {
      hide CommitJob;
      back', pj' := back, pj;
      if back != Some(row.backend) {
        if pj != null {
          CommitPruneJob(back.value, pj, env.commitFails);
          pj' := null;
        }
        back' := if row.backend in backends then Some(row.backend) else None;
      }
    }

    /** What GC does for each row, as the callback of its query: the commit of the last backend's
        job and the start of the next, then the row. */
    method CollectCallback(row: Row, env: Env, back: Option<string>, pj: RuleJob?, errCounts: map<string, int>,
                           jobErrors: set<string>, count: int, attempted: int)
      returns (back': Option<string>, pj': RuleJob?, errCounts': map<string, int>, jobErrors': set<string>,
               count': int, attempted': int)
      requires (back.Some? ==> back.value in backends) && (pj != null ==> back.Some?)
      modifies this, pj, if pj != null then {pj.rules} else {}
      ensures pj' != null ==> (fresh(pj') && fresh(pj'.rules)) || (pj' == pj && pj.rules == old(pj.rules))
      ensures Sweep(Abs(), back', JobOf(pj'), errCounts', jobErrors', count', attempted')
           == SweepRow(Sweep(old(Abs()), back, old(JobOf(pj)), errCounts, jobErrors, count, attempted), row, env)
    {
      hide SweepDue, Increment, TurnTo, NewJob, RuleJob.Abs;
      errCounts', jobErrors', count', attempted' := errCounts, jobErrors, count, attempted;
      var rowIsNewBackend := back != Some(row.backend);
      back', pj' := TurnToBackend(row, env, back, pj, errCounts, jobErrors, count, attempted);
      if back'.None? {
        return;
      }
      var errors := if row.backend in errCounts then errCounts[row.backend] else 0;
      if row.backend in jobErrors {
        errCounts' := errCounts[row.backend := errors + 1];
        journal := Increment(State(journal, next, backends), row.id, env).journal;
        return;
      }
      if rowIsNewBackend && backends[row.backend].s3 {
        if env.newJobFails {
          jobErrors' := jobErrors + {row.backend};
          errCounts' := errCounts[row.backend := errors + 1];
          journal := Increment(State(journal, next, backends), row.id, env).journal;
          return;
        }
        var b := backends[row.backend];
        pj' := new RuleJob(b.isB2, b.legacyPrefix, b.rules);
      }
      errCounts', count', attempted' := CollectDue(row, env, back', pj', errCounts, jobErrors, count, attempted);
    }

    /** GC over the rows its query returned. */
    method GC(rows: seq<Row>, envs: seq<Env>, commitFails: bool) returns (count: int, attempted: int)
      requires |rows| == |envs|
      modifies this
      ensures var r := Collect(old(Abs()), rows, envs, commitFails);
              Abs() == r.s && count == r.count && attempted == r.attempted
    {
      hide SweepRow, CommitJob;
      count, attempted := 0, 0;
      var errCounts: map<string, int> := map[];
      var jobErrors: set<string> := {};
      var back: Option<string> := None;
      var pj: RuleJob? := null;
      ghost var w := StartSweep(Abs());
      for i := 0 to |rows|
        invariant pj != null ==> fresh(pj) && fresh(pj.rules)
        invariant w == SweepRows(StartSweep(old(Abs())), rows[..i], envs[..i])
        invariant w.Valid() && w == Sweep(Abs(), back, JobOf(pj), errCounts, jobErrors, count, attempted)
      {
        assert rows[..i + 1][..i] == rows[..i] && envs[..i + 1][..i] == envs[..i];
        w := SweepRow(w, rows[i], envs[i]);
        back, pj, errCounts, jobErrors, count, attempted :=
          CollectCallback(rows[i], envs[i], back, pj, errCounts, jobErrors, count, attempted);
      }
      assert rows[..|rows|] == rows && envs[..|envs|] == envs;
      if pj != null {
        CommitPruneJob(back.value, pj, commitFails);
      }
    }
  }
}
