/**
 Safety of the deletion journal over whole runs: a reference once journalled keeps an entry until no
 object under it is left.
 */
module JournalSafety {
  import opened GoStrings
  import opened RuleJobs
  import opened Journal

  // ---- What a prune does to the objects ---------------------------------------------------------

  /** A prune only removes objects, and reports completion only when none is left under the
      reference, unless its listing was cut short by the cancelled context. */
  lemma PruneRefSafe(b: Backend, job: Option<Job>, ref: string, pruneAfter: Option<int>, env: Env)
    ensures var r := PruneRef(b, job, ref, pruneAfter, env);
            r.0.objects <= b.objects && r.0 == b.(objects := r.0.objects)
            && (r.2.Done? && !env.cancelled ==> Under(r.0.objects, ref) == {})
            && (r.1.Some? <==> job.Some?)
  {
    hide Job.Add, Job.Delete, RuleID;
    if !b.s3 {
      FilesCover(b.objects, ref);
    }
  }

  lemma FilesCover(objects: set<string>, ref: string)
    ensures Under(objects, ref) <= Files(objects, ref)
  {
    forall o | o in Under(objects, ref) ensures o in Files(objects, ref) {
      var t := TrimRight(ref, '/');
      if o != ref {
        TrimmedSlash(ref);
        assert o[..|t + "/"|] == ref[..|t + "/"|];
      }
    }
  }

  lemma {:induction false} TrimmedSlash(s: string)
    requires HasSuffix(s, "/")
    ensures HasPrefix(s, TrimRight(s, '/') + "/")
  {
    assert s[|s| - 1] == "/"[0];
    var t := s[..|s| - 1];
    if t != "" && t[|t| - 1] == '/' {
      assert t[|t| - 1..] == "/";
      TrimmedSlash(t);
      assert TrimRight(s, '/') == TrimRight(t, '/');
    } else {
      assert TrimRight(t, '/') == t;
      assert t + "/" == s;
    }
  }

  // ---- The safety invariant -------------------------------------------------------------------------

  /** Each condemned reference has a journal entry, or nothing is left under it. */
  ghost predicate Guarded(s: State, condemned: set<(string, string)>) {
    forall c :: c in condemned ==>
      c.0 in s.backends && (HasEntry(s, c.0, c.1) || Under(s.backends[c.0].objects, c.1) == {})
  }

  /** s' has no new objects, and each entry of s but the one with an ID. */
  ghost predicate ShrinksBut(s: State, s': State, id: int) {
    s.backends.Keys == s'.backends.Keys
    && (forall n :: n in s.backends ==> s'.backends[n].objects <= s.backends[n].objects)
    && (forall k :: k in s.journal && k != id ==>
          k in s'.journal && s'.journal[k].backend == s.journal[k].backend && s'.journal[k].ref == s.journal[k].ref)
  }

  /** Losing an entry is safe when nothing is left under its reference. */
  lemma ShrinkGuarded(s: State, s': State, id: int, condemned: set<(string, string)>)
    requires Guarded(s, condemned) && ShrinksBut(s, s', id)
    requires id in s.journal && id !in s'.journal ==>
      var e := s.journal[id]; e.backend in s'.backends && Under(s'.backends[e.backend].objects, e.ref) == {}
    requires id in s.journal && id in s'.journal ==>
      s'.journal[id].backend == s.journal[id].backend && s'.journal[id].ref == s.journal[id].ref
    ensures Guarded(s', condemned)
  {
    forall c | c in condemned
      ensures c.0 in s'.backends && (HasEntry(s', c.0, c.1) || Under(s'.backends[c.0].objects, c.1) == {})
    {
      if HasEntry(s, c.0, c.1) {
        var k :| k in s.journal && s.journal[k].backend == c.0 && s.journal[k].ref == c.1;
        if k in s'.journal {
          assert s'.journal[k].backend == c.0;
        }
      } else {
        UnderShrinks(s.backends[c.0].objects, s'.backends[c.0].objects, c.1);
      }
    }
  }

  lemma UnderShrinks(a: set<string>, b: set<string>, ref: string)
    requires b <= a && Under(a, ref) == {}
    ensures Under(b, ref) == {}
  {
    forall o | o in Under(b, ref) ensures o in Under(a, ref) {}
  }

  /** After a prune of an entry's reference: counting, updating and, when complete, dropping the entry
      are all safe. */
  lemma SettleGuards(s: State, name: string, b: Backend, id: int, ref: string, complete: bool,
                     condemned: set<(string, string)>)
    requires name in s.backends && b.objects <= s.backends[name].objects && Guarded(s, condemned) && Numbered(s)
    requires id in s.journal ==> s.journal[id].backend == name && s.journal[id].ref == ref
    requires complete ==> Under(b.objects, ref) == {}
    ensures var s2 := SetBackend(s, name, b);
            Numbered(s2) && Guarded(s2, condemned)
            && (forall env :: Numbered(Increment(s2, id, env)) && Guarded(Increment(s2, id, env), condemned))
            && (forall at :: Numbered(Update(s2, id, at)) && Guarded(Update(s2, id, at), condemned))
            && (complete ==> Numbered(Drop(s2, id)) && Guarded(Drop(s2, id), condemned))
  {
    hide Under, HasEntry;
    var s2 := SetBackend(s, name, b);
    ShrinkGuarded(s, s2, id, condemned);
    forall env ensures Guarded(Increment(s2, id, env), condemned) {
      ShrinkGuarded(s2, Increment(s2, id, env), id, condemned);
    }
    forall at ensures Guarded(Update(s2, id, at), condemned) {
      ShrinkGuarded(s2, Update(s2, id, at), id, condemned);
    }
    if complete {
      ShrinkGuarded(s2, Drop(s2, id), id, condemned);
    }
  }

  // ---- PruneBackendRefs keeps it -----------------------------------------------------------------------

  /** Entry numbers in use are below the next one, and 0 is never one. */
  predicate Numbered(s: State) {
    s.next >= 1 && forall id :: id in s.journal ==> 1 <= id < s.next
  }

  lemma AddDeleteGuards(s: State, name: string, ref: string, condemned: set<(string, string)>)
    requires Numbered(s) && Guarded(s, condemned) && name in s.backends
    ensures var (s1, id) := AddDelete(s, name, ref);
            Numbered(s1) && Guarded(s1, condemned + {(name, ref)})
            && (id in s1.journal ==> s1.journal[id].backend == name && s1.journal[id].ref == ref)
  {
    var (s1, id) := AddDelete(s, name, ref);
    ShrinkGuarded(s, s1, s.next, condemned);
    if !HasEntry(s, name, ref) {
      assert s1.journal[id].backend == name;
      assert HasEntry(s1, name, ref);
    }
  }

  lemma PruneOneGuards(p: Pruning, name: string, prefix: string, env: Env, condemned: set<(string, string)>)
    requires name in p.s.backends && Numbered(p.s) && Guarded(p.s, condemned + p.journalled)
    ensures var r := PruneOne(p, name, prefix, env); Numbered(r.s) && Guarded(r.s, condemned + r.journalled)
  {
    if !p.stopped && !env.addFails && !env.cancelled {
      hide PruneRef, Under, HasEntry, AddDelete, Guarded, Increment, Update, Drop, SetBackend, Numbered;
      var (s1, id) := AddDelete(p.s, name, prefix);
      AddDeleteGuards(p.s, name, prefix, condemned + p.journalled);
      assert condemned + p.journalled + {(name, prefix)} == condemned + (p.journalled + {(name, prefix)});
      PruneRefSafe(s1.backends[name], p.job, prefix, None, env);
      var r := PruneRef(s1.backends[name], p.job, prefix, None, env);
      SettleGuards(s1, name, r.0, id, prefix, r.2.Done?, condemned + (p.journalled + {(name, prefix)}));
    }
  }

  lemma {:induction false} PruneLoopGuards(p: Pruning, name: string, prefixes: seq<string>, envs: seq<Env>,
                                           condemned: set<(string, string)>)
    requires name in p.s.backends && |prefixes| == |envs|
    requires Numbered(p.s) && Guarded(p.s, condemned + p.journalled)
    ensures var r := PruneLoop(p, name, prefixes, envs); Numbered(r.s) && Guarded(r.s, condemned + r.journalled)
  {
    hide PruneOne, Guarded, Numbered;
    if prefixes != [] {
      var n := |prefixes| - 1;
      PruneLoopGuards(p, name, prefixes[..n], envs[..n], condemned);
      PruneOneGuards(PruneLoop(p, name, prefixes[..n], envs[..n]), name, prefixes[n], envs[n], condemned);
    }
  }

  lemma CommitGuards(s: State, name: string, job: Option<Job>, fails: bool, condemned: set<(string, string)>)
    requires name in s.backends && Numbered(s) && Guarded(s, condemned)
    ensures Numbered(CommitJob(s, name, job, fails)) && Guarded(CommitJob(s, name, job, fails), condemned)
  {
    hide Under, HasEntry, Job.Config;
    ShrinkGuarded(s, CommitJob(s, name, job, fails), 0, condemned);
  }

  lemma PruneRefsGuards(s: State, name: string, prefixes: seq<string>, envs: seq<Env>, newJobFails: bool,
                        commitFails: bool,
                        condemned: set<(string, string)>)
    requires |prefixes| == |envs| && Numbered(s) && Guarded(s, condemned)
    ensures var r := PruneRefs(s, name, prefixes, envs, newJobFails, commitFails);
            Numbered(r.0) && Guarded(r.0, condemned + r.2)
  {
    hide PruneLoop, Guarded, Numbered, CommitJob;
    assert condemned + {} == condemned;
    if name in s.backends {
      var b := s.backends[name];
      var p0 := Pruning(s, if b.s3 then Some(StartJob(b)) else None, {}, false);
      PruneLoopGuards(p0, name, prefixes, envs, condemned);
      var p := PruneLoop(p0, name, prefixes, envs);
      CommitGuards(p.s, name, p.job, commitFails, condemned + p.journalled);
    }
  }

  // ---- GC keeps it ----------------------------------------------------------------------------------------

  /** A row shows its entry's backend and reference, as long as the entry is there. */
  ghost predicate Shows(s: State, row: Row) {
    row.id in s.journal ==> s.journal[row.id].backend == row.backend && s.journal[row.id].ref == row.ref
  }

  /** No entry changes what it is about, and no new one appears. */
  ghost predicate SameEntries(s: State, s': State) {
    forall id :: id in s'.journal ==>
      id in s.journal && s'.journal[id].backend == s.journal[id].backend && s'.journal[id].ref == s.journal[id].ref
  }

  lemma SweepPruneGuards(w: Sweep, row: Row, env: Env, condemned: set<(string, string)>)
    requires row.backend in w.s.backends && Shows(w.s, row)
    requires Numbered(w.s) && Guarded(w.s, condemned)
    ensures var r := SweepPrune(w, row, env);
            Numbered(r.s) && Guarded(r.s, condemned) && SameEntries(w.s, r.s)
  {
    hide PruneRef, Under, HasEntry, Guarded, Numbered;
    PruneRefSafe(w.s.backends[row.backend], w.job, row.ref, row.pruneAfter, env);
    var r := PruneRef(w.s.backends[row.backend], w.job, row.ref, row.pruneAfter, env);
    SettleGuards(w.s, row.backend, r.0, row.id, row.ref, r.2.Done? && !env.cancelled, condemned);
  }

  lemma TurnToGuards(w: Sweep, row: Row, env: Env, condemned: set<(string, string)>)
    requires w.Valid() && Numbered(w.s) && Guarded(w.s, condemned)
    ensures var r := TurnTo(w, row, env);
            Numbered(r.s) && Guarded(r.s, condemned) && r.s.journal == w.s.journal
  {
    hide Guarded, Numbered;
    if w.job.Some? {
      CommitGuards(w.s, w.back.value, w.job, env.commitFails, condemned);
    }
  }

  lemma TriesGuards(s: State, id: int, env: Env, condemned: set<(string, string)>)
    requires Numbered(s) && Guarded(s, condemned)
    ensures var r := Increment(s, id, env); Numbered(r) && Guarded(r, condemned) && SameEntries(s, r)
  {
    hide Under, HasEntry;
    ShrinkGuarded(s, Increment(s, id, env), id, condemned);
  }

  lemma SweepRowGuards(w: Sweep, row: Row, env: Env, condemned: set<(string, string)>)
    requires w.Valid() && Shows(w.s, row)
    requires Numbered(w.s) && Guarded(w.s, condemned)
    ensures var r := SweepRow(w, row, env);
            Numbered(r.s) && Guarded(r.s, condemned) && SameEntries(w.s, r.s)
  {
    hide Guarded, Numbered, TurnTo, SweepPrune, Increment, StartJob;
    TurnToGuards(w, row, env, condemned);
    var w2 := TurnTo(w, row, env);
    TriesGuards(w2.s, row.id, env, condemned);
    if w2.back.Some? {
      var b := w2.s.backends[row.backend];
      var w3 := if w.back != Some(row.backend) && b.s3 then w2.(job := Some(StartJob(b))) else w2;
      SweepPruneGuards(w3, row, env, condemned);
    }
  }

  lemma {:induction false} SweepRowsGuards(w: Sweep, rows: seq<Row>, envs: seq<Env>, condemned: set<(string, string)>)
    requires w.Valid() && |rows| == |envs| && Numbered(w.s) && Guarded(w.s, condemned)
    requires forall i :: 0 <= i < |rows| ==> Shows(w.s, rows[i])
    ensures var r := SweepRows(w, rows, envs);
            Numbered(r.s) && Guarded(r.s, condemned) && SameEntries(w.s, r.s)
  {
    hide SweepRow, Guarded, Numbered;
    if rows != [] {
      var n := |rows| - 1;
      SweepRowsGuards(w, rows[..n], envs[..n], condemned);
      var v := SweepRows(w, rows[..n], envs[..n]);
      assert Shows(w.s, rows[n]) && Shows(v.s, rows[n]);
      SweepRowGuards(v, rows[n], envs[n], condemned);
    }
  }

  lemma CollectGuards(s: State, rows: seq<Row>, envs: seq<Env>, commitFails: bool, condemned: set<(string, string)>)
    requires |rows| == |envs| && Numbered(s) && Guarded(s, condemned)
    requires forall i :: 0 <= i < |rows| ==> Shows(s, rows[i])
    ensures var r := Collect(s, rows, envs, commitFails).s; Numbered(r) && Guarded(r, condemned)
  {
    hide SweepRows, Guarded, Numbered, CommitJob;
    SweepRowsGuards(StartSweep(s), rows, envs, condemned);
    var w := SweepRows(StartSweep(s), rows, envs);
    if w.job.Some? {
      CommitGuards(w.s, w.back.value, w.job, commitFails, condemned);
    }
  }

  // ---- Runs --------------------------------------------------------------------------------------------------

  datatype Step =
    | PruneStep(name: string, prefixes: seq<string>, envs: seq<Env>, newJobFails: bool, commitFails: bool)
    | CollectStep(rows: seq<Row>, envs: seq<Env>, commitFails: bool)
    | StoreStep(name: string, key: string)
    | RemoveStep(name: string, keys: set<string>)

  // The store, and every reference journalled so far.
  datatype History = History(s: State, condemned: set<(string, string)>)

  /** The rows a query returns: entries as they are, each once. */
  ghost predicate Snapshot(s: State, rows: seq<Row>) {
    (forall i :: 0 <= i < |rows| ==>
       rows[i].id in s.journal && s.journal[rows[i].id].backend == rows[i].backend
       && s.journal[rows[i].id].ref == rows[i].ref && s.journal[rows[i].id].pruneAfter == rows[i].pruneAfter)
    && (forall i, j :: 0 <= i < j < |rows| ==> rows[i].id != rows[j].id)
  }

  /** What the environment may do: the collector sees the journal as it is, and nothing new is stored
      under a condemned reference. Removals are anyone's: the lifecycle daemon's, or a rollback's. */
  ghost predicate Allowed(h: History, step: Step) {
    match step
    case PruneStep(name, prefixes, envs, _, _) => |prefixes| == |envs|
    case CollectStep(rows, envs, _) => |rows| == |envs| && Snapshot(h.s, rows)
    case StoreStep(name, key) => forall c :: c in h.condemned && c.0 == name ==> Under({key}, c.1) == {}
    case RemoveStep(_, _) => true
  }

  function AddObject(s: State, name: string, key: string): State {
    if name in s.backends then SetBackend(s, name, s.backends[name].(objects := s.backends[name].objects + {key}))
    else s
  }

  function RemoveObjects(s: State, name: string, keys: set<string>): State {
    if name in s.backends then SetBackend(s, name, s.backends[name].(objects := s.backends[name].objects - keys)) else s
  }

  /** One step; a step the environment may not take does not happen. */
  ghost function Exec(h: History, step: Step): History {
    if !Allowed(h, step) then h
    else
      match step
      case PruneStep(name, prefixes, envs, newJobFails, commitFails) =>
        var r := PruneRefs(h.s, name, prefixes, envs, newJobFails, commitFails);
        History(r.0, h.condemned + r.2)
      case CollectStep(rows, envs, commitFails) => h.(s := Collect(h.s, rows, envs, commitFails).s)
      case StoreStep(name, key) => h.(s := AddObject(h.s, name, key))
      case RemoveStep(name, keys) => h.(s := RemoveObjects(h.s, name, keys))
  }

  ghost function ExecAll(h: History, steps: seq<Step>): History {
    if steps == [] then h else Exec(ExecAll(h, steps[..|steps| - 1]), steps[|steps| - 1])
  }

  ghost predicate Safe(h: History) {
    Numbered(h.s) && Guarded(h.s, h.condemned)
  }

  lemma UnderUnion(a: set<string>, b: set<string>, ref: string)
    ensures Under(a + b, ref) == Under(a, ref) + Under(b, ref)
  {}

  lemma StoreGuards(h: History, name: string, key: string)
    requires Safe(h) && Allowed(h, StoreStep(name, key))
    ensures Safe(Exec(h, StoreStep(name, key)))
  {
    var s' := AddObject(h.s, name, key);
    forall c | c in h.condemned
      ensures c.0 in s'.backends && (HasEntry(s', c.0, c.1) || Under(s'.backends[c.0].objects, c.1) == {})
    {
      if HasEntry(h.s, c.0, c.1) {
        var id :| id in h.s.journal && h.s.journal[id].backend == c.0 && h.s.journal[id].ref == c.1;
        assert id in s'.journal;
      } else if c.0 == name {
        UnderUnion(h.s.backends[name].objects, {key}, c.1);
      }
    }
  }

  lemma StepSafe(h: History, step: Step)
    requires Safe(h)
    ensures Safe(Exec(h, step))
  {
    hide Collect, PruneRefs, AddObject, RemoveObjects, Under, HasEntry;
    if Allowed(h, step) {
      match step
      case PruneStep(name, prefixes, envs, newJobFails, commitFails) =>
        PruneRefsGuards(h.s, name, prefixes, envs, newJobFails, commitFails, h.condemned);
      case CollectStep(rows, envs, commitFails) =>
        assert forall i :: 0 <= i < |rows| ==> Shows(h.s, rows[i]);
        CollectGuards(h.s, rows, envs, commitFails, h.condemned);
      case StoreStep(name, key) => StoreGuards(h, name, key);
      case RemoveStep(name, keys) => RemoveGuards(h, name, keys);
    }
  }

  lemma RemoveGuards(h: History, name: string, keys: set<string>)
    requires Safe(h)
    ensures Safe(h.(s := RemoveObjects(h.s, name, keys)))
  {
    hide Under, HasEntry;
    ShrinkGuarded(h.s, RemoveObjects(h.s, name, keys), 0, h.condemned);
  }

  /** Over every run of prunes, collections, stores and removals, with every remote operation failing
      at will, a reference once journalled keeps an entry until no object under it remains. */
  lemma {:induction false} RunsAreSafe(h: History, steps: seq<Step>)
    requires Safe(h)
    ensures Safe(ExecAll(h, steps))
  {
    hide Exec, Safe;
    if steps != [] {
      RunsAreSafe(h, steps[..|steps| - 1]);
      StepSafe(ExecAll(h, steps[..|steps| - 1]), steps[|steps| - 1]);
    }
  }
}
