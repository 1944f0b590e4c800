/**
 What the deletion journal achieves when nothing fails: one pass of the collector settles every due
 entry, and pruning removes or schedules what it is given.
 */
module JournalProgress {
  import opened GoStrings
  import opened RuleJobs
  import opened Journal
  import opened JournalSafety
  import opened JournalStuck

  /** Nothing fails around a row or prefix. */
  predicate Quiet(env: Env) {
    !env.cancelled && !env.newJobFails && !env.addFails && !env.pruneFails && !env.updateFails && !env.dropFails
    && !env.incrementFails && !env.commitFails
  }

  /** The objects that pruning a reference removes at once: on the file system the file or directory, on S3
      a single object, while the objects under a prefix are left to its rule. */
  predicate Taken(b: Backend, ref: string, o: string) {
    (o == ref && !(b.s3 && HasSuffix(ref, "/"))) || (!b.s3 && HasPrefix(o, TrimRight(ref, '/') + "/"))
  }

  // ---- Jobs, by the rules of callers ------------------------------------------------------------------

  /** The job's map knows the callers' rules that it would commit. */
  ghost predicate Sound(j: Job) {
    forall id :: Plain(id) ==> (id in j.ruleMap <==> id in Ids(j.Config()))
  }

  lemma ConfigIds(j: Job)
    ensures Ids(j.Config()) == Ids(Kept(j.rules, j.dels)) + Ids(j.adds)
  {
    hide Kept;
    IdsAppend(Kept(j.rules, j.dels), j.adds);
  }

  lemma IdsAppend(a: seq<Rule>, b: seq<Rule>)
    ensures Ids(a + b) == Ids(a) + Ids(b)
  {}

  lemma StartSound(b: Backend)
    ensures var j := StartJob(b);
            Sound(j) && j.rules == b.rules && j.Config() == b.rules && j.adds == [] && !j.Changed()
  {
    hide Kept, Plain, MapOf;
    KeptAll(b.rules, {});
  }

  /** A new rule of a caller is the only one of theirs that an addition adds. */
  lemma AddSound(j: Job, r: Rule)
    requires Sound(j) && Plain(r.id) && r.id !in j.ruleMap
    ensures var j' := j.Add(r).0;
            j.Add(r).1 && Sound(j') && j'.rules == j.rules && j'.Changed()
            && forall id :: Plain(id) ==>
                 (id in Ids(j'.Config()) <==> id in Ids(j.Config()) || id == r.id)
                 && (id in Ids(j'.adds) <==> id in Ids(j.adds) || id == r.id)
  {
    hide Kept, Plain, DelMarkerName;
    var j' := j.Add(r).0;
    MarkerNotPlain(r.id);
    ConfigIds(j);
    ConfigIds(j');
    var added := if j.isB2 then [DelMarkerRule(r), r.(noncurrentDays := 1)] else [r];
    assert j'.adds == j.adds + added;
    IdsAppend(j.adds, added);
    assert Ids(added) == if j.isB2 then {DelMarkerName(r.id), r.id} else {r.id} by {
      NewIds(r, j.isB2);
    }
  }

  lemma NewIds(r: Rule, isB2: bool)
    ensures Ids(if isB2 then [DelMarkerRule(r), r.(noncurrentDays := 1)] else [r])
         == if isB2 then {DelMarkerName(r.id), r.id} else {r.id}
  {
    hide DelMarkerName;
    var added := if isB2 then [DelMarkerRule(r), r.(noncurrentDays := 1)] else [r];
    assert added[0] in added && added[|added| - 1] in added;
  }

  /** A rule that the job did not add is the only one of the callers' that a deletion deletes. */
  lemma DeleteSound(j: Job, id: string)
    requires Sound(j) && Plain(id) && id !in Ids(j.adds)
    ensures var j' := j.Delete(id);
            Sound(j') && j'.rules == j.rules && j'.adds == j.adds && j'.Changed()
            && forall x :: Plain(x) ==> (x in Ids(j'.Config()) <==> x in Ids(j.Config()) && x != id)
  {
    hide Kept, Plain, DelMarkerName;
    var j', gone := j.Delete(id), Gone(j, id);
    DeleteShape(j, id);
    MarkerNotPlain(id);
    ConfigIds(j);
    ConfigIds(j');
    KeptIds(j.rules, j.dels);
    KeptIds(j.rules, j'.dels);
  }

  lemma KeptIds(rules: seq<Rule>, dels: set<string>)
    ensures Ids(Kept(rules, dels)) == Ids(rules) - dels
  {
    hide Kept;
    KeptMembers(rules, dels);
    forall id | id in Ids(rules) - dels ensures id in Ids(Kept(rules, dels)) {
      var r :| r in rules && r.id == id;
      assert r in Kept(rules, dels);
    }
  }

  // ---- Rows and what becomes of them --------------------------------------------------------------------

  /** An entry the collector's query selects, of a reference as callers make them, whose rule did not get
      lost. */
  ghost predicate Ready(s: State, row: Row, env: Env) {
    Quiet(env) && (row.pruneAfter.Some? ==> env.now > row.pruneAfter.value)
    && row.id in s.journal && s.journal[row.id] == Entry(row.backend, row.ref, row.pruneAfter, s.journal[row.id].tries)
    && (row.backend in s.backends && s.backends[row.backend].s3 && HasSuffix(row.ref, "/") ==>
          OneSlash(row.ref) && Plain(RuleID(row.ref))
          && (row.pruneAfter.None? ==> RuleID(row.ref) !in Ids(s.backends[row.backend].rules)))
  }

  /** The rows are due entries, each once, no two of one reference. */
  ghost predicate AllReady(s: State, rows: seq<Row>, envs: seq<Env>) {
    |rows| == |envs|
    && (forall i :: 0 <= i < |rows| ==> Ready(s, rows[i], envs[i]))
    && (forall i, k :: 0 <= i < k < |rows| ==>
          rows[i].id != rows[k].id && (rows[i].backend == rows[k].backend ==> rows[i].ref != rows[k].ref))
  }

  /** The objects of a backend once the first n rows had their turn. */
  function Left(s: State, rows: seq<Row>, name: string, n: nat): set<string>
    requires name in s.backends && n <= |rows|
  {
    set o | o in s.backends[name].objects
            && forall i :: 0 <= i < n && rows[i].backend == name ==> !Taken(s.backends[name], rows[i].ref, o)
  }

  /** Whether an entry goes: it is no prefix in S3, or its prune time is over, its rule was there, and
      nothing was left under it. */
  ghost predicate Finishes(s: State, rows: seq<Row>, i: nat)
    requires i < |rows| && rows[i].backend in s.backends
  {
    var b, row := s.backends[rows[i].backend], rows[i];
    !(b.s3 && HasSuffix(row.ref, "/"))
    || (row.pruneAfter.Some? && RuleID(row.ref) in Ids(b.rules) && Under(Left(s, rows, row.backend, i), row.ref) == {})
  }

  /** What became of the i-th row, by the journal, the objects and the rules: its entry is gone and, on the
      file system or for a single object, so are the objects, or for a prefix in S3 the rule; else it waits
      for another five days, with its rule in force. */
  ghost predicate Settled(s: State, rows: seq<Row>, envs: seq<Env>, i: nat, journal: map<int, Entry>,
                          objects: set<string>, ids: set<string>)
    requires i < |rows| == |envs| && rows[i].backend in s.backends && rows[i].id in s.journal
  {
    var b, row := s.backends[rows[i].backend], rows[i];
    if Finishes(s, rows, i) then
      row.id !in journal
      && if b.s3 && HasSuffix(row.ref, "/") then RuleID(row.ref) !in ids else Under(objects, row.ref) == {}
    else
      row.id in journal
      && journal[row.id] == s.journal[row.id].(pruneAfter := Some(envs[i].now + FIVE_DAYS),
                                               tries := s.journal[row.id].tries + 1)
      && RuleID(row.ref) in ids
  }

  // ---- A backend's turn in the collector ----------------------------------------------------------------

  /** The IDs of the rules of a backend, as its job would commit them. */
  function IdsNow(w: Sweep, name: string): set<string>
    requires name in w.s.backends
  {
    if w.back == Some(name) && w.job.Some? then Ids(w.job.value.Config()) else Ids(w.s.backends[name].rules)
  }

  /** The IDs that its job has added. */
  function AddsNow(w: Sweep, name: string): set<string> {
    if w.back == Some(name) && w.job.Some? then Ids(w.job.value.adds) else {}
  }

  /** A backend without errors, whose job, when it is its turn, is in order. */
  ghost predicate Tracks(w: Sweep, name: string) {
    w.Valid() && name in w.s.backends && ErrCount(w, name) == 0 && name !in w.jobErrors
    && (w.back == Some(name) ==>
          if w.s.backends[name].s3
          then w.job.Some? && Sound(w.job.value) && w.job.value.rules == w.s.backends[name].rules
          else w.job.None?)
  }

  /** Nothing about a backend but, perhaps, its turn has changed. */
  ghost predicate SameFor(w: Sweep, w': Sweep, name: string) {
    name in w.s.backends && name in w'.s.backends
    && w'.s.backends[name] == w.s.backends[name].(rules := w'.s.backends[name].rules)
    && IdsNow(w', name) == IdsNow(w, name) && AddsNow(w', name) <= AddsNow(w, name)
  }

  lemma UnchangedConfig(j: Job)
    requires !j.Changed()
    ensures j.Config() == j.rules
  {
    KeptAll(j.rules, {});
    assert j.Config() == j.rules + [];
  }

  /** Ending a backend's turn commits its job. */
  lemma CommitSame(w: Sweep, name: string)
    requires Tracks(w, name)
    ensures var r := CommitSweep(w, false).(back := None);
            SameFor(w, r, name) && CommitSweep(w, false).s.journal == w.s.journal
  {
    hide Sound, Job.Config;
    if w.back == Some(name) && w.job.Some? && !w.job.value.Changed() {
      UnchangedConfig(w.job.value);
    }
  }

  /** The sweep when a row of a backend that is in order is about to be pruned. */
  function Prepared(w: Sweep, row: Row, env: Env): (r: Sweep)
    requires w.Valid() && row.backend in w.s.backends
    ensures row.backend in r.s.backends && r.Valid()
  {
    var w2 := TurnTo(w, row, env);
    var b := w2.s.backends[row.backend];
    if w.back != Some(row.backend) && b.s3 then w2.(job := Some(StartJob(b))) else w2
  }

  lemma PreparedTracks(w: Sweep, row: Row, env: Env)
    requires Tracks(w, row.backend) && Quiet(env)
    ensures var r := Prepared(w, row, env);
            SweepRow(w, row, env) == SweepPrune(r, row, env)
            && Tracks(r, row.backend) && SameFor(w, r, row.backend) && r.back == Some(row.backend)
            && r.s.journal == w.s.journal
  {
    hide Sound, SweepPrune, Job.Config, StartJob;
    if w.back != Some(row.backend) {
      CommitOther(w, row.backend);
      var b := w.s.backends[row.backend];
      if b.s3 {
        StartSound(b);
      }
    }
  }

  lemma CommitOther(w: Sweep, name: string)
    requires w.Valid() && name in w.s.backends && w.back != Some(name)
    ensures var r := CommitSweep(w, false);
            r.s.backends[name] == w.s.backends[name] && r.s.journal == w.s.journal && r.errCounts == w.errCounts
            && r.jobErrors == w.jobErrors
  {
    hide Job.Config;
  }

  /** The entries are the same, but for one. */
  predicate SameBut(a: map<int, Entry>, b: map<int, Entry>, id: int) {
    forall x :: x in a.Keys + b.Keys && x != id ==> x in a && x in b && b[x] == a[x]
  }

  /** Only this entry and the rows' own backend may have changed. */
  ghost predicate Elsewhere(w: Sweep, r: Sweep, name: string, id: int)
    requires name in w.s.backends
  {
    r.back == w.back && name in r.s.backends && r.s.backends[name] == w.s.backends[name]
    && ErrCount(r, name) == ErrCount(w, name) && (name in r.jobErrors <==> name in w.jobErrors)
    && SameBut(w.s.journal, r.s.journal, id)
  }

  lemma OthersPrune(w: Sweep, row: Row, env: Env, name: string)
    requires row.backend in w.s.backends && name in w.s.backends && row.backend != name
    ensures Elsewhere(w, SweepPrune(w, row, env), name, row.id)
    ensures Elsewhere(w, IncrementTries(w, row, env), name, row.id)
  {
    hide PruneRef;
  }

  lemma SweepRowCases(w: Sweep, row: Row, env: Env)
    requires w.Valid() && Quiet(env)
    ensures var w2, r := TurnTo(w, row, env), SweepRow(w, row, env);
            if w2.back.None? then r == w2
            else
              row.backend in w2.s.backends && w2.back == Some(row.backend)
              && var w3 := if w.back != Some(row.backend) && w2.s.backends[row.backend].s3
                           then w2.(job := Some(StartJob(w2.s.backends[row.backend]))) else w2;
                 r == IncrementTries(w2, row, env) || r == w3 || r == SweepPrune(w3, row, env)
  {
    hide TurnTo, StartJob, SweepPrune, IncrementTries, ErrCount;
  }

  /** A row of another backend. */
  lemma OthersTurn(w: Sweep, row: Row, env: Env, name: string)
    requires Tracks(w, name) && row.backend != name && Quiet(env)
    ensures var r := SweepRow(w, row, env);
            Tracks(r, name) && SameFor(w, r, name) && SameBut(w.s.journal, r.s.journal, row.id)
  {
    hide Sound, Job.Config, PruneRef, StartJob, SweepPrune, IncrementTries, SweepRow;
    OthersLeave(w, row, env, name);
    SweepRowCases(w, row, env);
    var w2 := TurnTo(w, row, env);
    hide TurnTo;
    if w2.back.Some? {
      var b := w2.s.backends[row.backend];
      var w3 := if w.back != Some(row.backend) && b.s3 then w2.(job := Some(StartJob(b))) else w2;
      OthersPrune(w2, row, env, name);
      OthersPrune(w3, row, env, name);
    }
  }

  lemma OthersLeave(w: Sweep, row: Row, env: Env, name: string)
    requires Tracks(w, name) && row.backend != name && Quiet(env)
    ensures var w2 := TurnTo(w, row, env);
            w2.back != Some(name) && SameFor(w, w2, name) && Tracks(w2, name) && w2.s.journal == w.s.journal
  {
    hide Sound, Job.Config;
    CommitSame(w, name);
  }

  // ---- The row's own prune ----------------------------------------------------------------------------------

  /** A prefix in S3: a rule that is there is deleted with its entry once its time is over and nothing is
      left; else the entry waits, and a missing rule is added. */
  lemma PrefixTurn(w: Sweep, row: Row, env: Env)
    requires Tracks(w, row.backend) && w.back == Some(row.backend) && w.s.backends[row.backend].s3 && Quiet(env)
    requires HasSuffix(row.ref, "/") && Plain(RuleID(row.ref)) && RuleID(row.ref) !in AddsNow(w, row.backend)
    requires row.pruneAfter.Some? ==> env.now > row.pruneAfter.value
    requires row.pruneAfter.None? ==> RuleID(row.ref) !in IdsNow(w, row.backend)
    requires row.id in w.s.journal
    ensures var r, b, id := SweepPrune(w, row, env), w.s.backends[row.backend], RuleID(row.ref);
            var done := row.pruneAfter.Some? && id in IdsNow(w, row.backend) && Under(b.objects, row.ref) == {};
            Tracks(r, row.backend) && r.back == w.back && r.s.backends == w.s.backends
            && (if done then r.s.journal == w.s.journal - {row.id}
                else
                  r.s.journal == w.s.journal[row.id := w.s.journal[row.id].(pruneAfter := Some(env.now + FIVE_DAYS),
                                                                           tries := w.s.journal[row.id].tries + 1)])
            && (forall x :: Plain(x) ==>
                  (x in IdsNow(r, row.backend) <==> if x == id then !done else x in IdsNow(w, row.backend))
                  && (x in AddsNow(r, row.backend) ==> x == id || x in AddsNow(w, row.backend)))
  {
    hide Sound, Job.Config, Job.Add, Job.Delete, RuleID, Plain, Under;
    var j, id := w.job.value, RuleID(row.ref);
    SoundAt(j, id);
    if id in IdsNow(w, row.backend) {
      DeleteSound(j, id);
    } else {
      AddSound(j, j.RmRule(row.ref));
    }
    assert w.s.backends == w.s.backends[row.backend := w.s.backends[row.backend]];
  }

  lemma SoundAt(j: Job, id: string)
    requires Sound(j) && Plain(id)
    ensures id in j.ruleMap <==> id in Ids(j.Config())
  {}

  /** Any other reference: what it takes is gone, and its entry. */
  lemma PlainTurn(w: Sweep, row: Row, env: Env)
    requires Tracks(w, row.backend) && w.back == Some(row.backend) && Quiet(env)
    requires !(w.s.backends[row.backend].s3 && HasSuffix(row.ref, "/"))
    requires row.pruneAfter.Some? ==> env.now > row.pruneAfter.value
    ensures var r, b := SweepPrune(w, row, env), w.s.backends[row.backend];
            Tracks(r, row.backend) && r.back == w.back && r.s.journal == w.s.journal - {row.id}
            && r.s.backends
               == w.s.backends[row.backend := b.(objects := set o | o in b.objects && !Taken(b, row.ref, o))]
            && IdsNow(r, row.backend) == IdsNow(w, row.backend) && AddsNow(r, row.backend) == AddsNow(w, row.backend)
  {
    hide Sound, Job.Config, RuleID, HasSuffix, Taken, Files;
    TakenAre(w.s.backends[row.backend], row.ref);
  }

  lemma TakenAre(b: Backend, ref: string)
    requires !(b.s3 && HasSuffix(ref, "/"))
    ensures (set o | o in b.objects && !Taken(b, ref, o)) == b.objects - (if b.s3 then {ref} else Files(b.objects, ref))
  {
    hide HasPrefix, TrimRight, HasSuffix;
  }

  // ---- Whole passes ---------------------------------------------------------------------------------------------

  /** After the first n rows: those of the backend are settled, and the others have not been touched. */
  ghost predicate Passed(s: State, rows: seq<Row>, envs: seq<Env>, name: string, n: nat, w: Sweep) {
    name in s.backends && AllReady(s, rows, envs) && n <= |rows| && Tracks(w, name)
    && w.s.backends[name]
       == s.backends[name].(objects := Left(s, rows, name, n), rules := w.s.backends[name].rules)
    && (forall i :: 0 <= i < n && rows[i].backend == name ==>
          Settled(s, rows, envs, i, w.s.journal, w.s.backends[name].objects, IdsNow(w, name)))
    && (forall i :: n <= i < |rows| && rows[i].backend == name ==> Waiting(s, rows[i], w))
  }

  /** The row's entry is as it was, and so is the rule of its prefix. */
  ghost predicate Waiting(s: State, row: Row, w: Sweep)
    requires row.backend in s.backends && row.backend in w.s.backends
  {
    row.id in w.s.journal && row.id in s.journal && w.s.journal[row.id] == s.journal[row.id]
    && (s.backends[row.backend].s3 && HasSuffix(row.ref, "/") ==>
          RuleID(row.ref) !in AddsNow(w, row.backend)
          && (RuleID(row.ref) in IdsNow(w, row.backend) <==> RuleID(row.ref) in Ids(s.backends[row.backend].rules)))
  }

  lemma LeftNext(s: State, rows: seq<Row>, name: string, n: nat)
    requires name in s.backends && n < |rows|
    ensures var b := s.backends[name];
            Left(s, rows, name, n + 1)
            == if rows[n].backend == name then set o | o in Left(s, rows, name, n) && !Taken(b, rows[n].ref, o)
               else Left(s, rows, name, n)
  {
    hide Taken;
  }

  /** One more row: a settled one stays settled whatever its backend's later rows do. */
  lemma StaysSettled(s: State, rows: seq<Row>, envs: seq<Env>, i: nat, n: nat, w: Sweep, r: Sweep)
    requires AllReady(s, rows, envs) && i < n < |rows| && rows[i].backend in s.backends
    requires rows[i].backend in w.s.backends && rows[i].backend in r.s.backends
    requires Settled(s, rows, envs, i, w.s.journal, w.s.backends[rows[i].backend].objects, IdsNow(w, rows[i].backend))
    requires SameBut(w.s.journal, r.s.journal, rows[n].id)
    requires r.s.backends[rows[i].backend].objects <= w.s.backends[rows[i].backend].objects
    requires s.backends[rows[i].backend].s3 && HasSuffix(rows[i].ref, "/") ==>
      (RuleID(rows[i].ref) in IdsNow(r, rows[i].backend) <==> RuleID(rows[i].ref) in IdsNow(w, rows[i].backend))
    ensures Settled(s, rows, envs, i, r.s.journal, r.s.backends[rows[i].backend].objects, IdsNow(r, rows[i].backend))
  {
    hide Under, RuleID, Plain, OneSlash, IdsNow, Left, HasSuffix;
    assert rows[i].id != rows[n].id;
    var name := rows[i].backend;
    if Under(w.s.backends[name].objects, rows[i].ref) == {} {
      UnderShrinks(w.s.backends[name].objects, r.s.backends[name].objects, rows[i].ref);
    }
  }

  /** A backend whose rules and objects stay is left as it was, whoever's turn it was. */
  lemma PassedSame(s: State, rows: seq<Row>, envs: seq<Env>, name: string, n: nat, w: Sweep, r: Sweep)
    requires Passed(s, rows, envs, name, n, w) && Tracks(r, name) && SameFor(w, r, name)
    requires r.s.journal == w.s.journal
    ensures Passed(s, rows, envs, name, n, r)
  {
    hide Settled, Tracks, Left, AllReady, IdsNow, AddsNow, RuleID;
  }

  lemma PassedOther(s: State, rows: seq<Row>, envs: seq<Env>, name: string, n: nat, w: Sweep)
    requires Passed(s, rows, envs, name, n, w) && n < |rows| && rows[n].backend != name
    ensures w.Valid() && Passed(s, rows, envs, name, n + 1, SweepRow(w, rows[n], envs[n]))
  {
    assert w.Valid() && Quiet(envs[n]) by {
      ReadyAt(s, rows, envs, n);
      TracksValid(w, name);
    }
    hide Settled, Left, IdsNow, AddsNow, RuleID, SweepRow, Ready, Quiet, HasSuffix, Tracks;
    OthersTurn(w, rows[n], envs[n], name);
    var r := SweepRow(w, rows[n], envs[n]);
    LeftNext(s, rows, name, n);
    forall i | 0 <= i < n + 1 && rows[i].backend == name
      ensures Settled(s, rows, envs, i, r.s.journal, r.s.backends[name].objects, IdsNow(r, name))
    {
      StaysSettled(s, rows, envs, i, n, w, r);
    }
    forall i | n + 1 <= i < |rows| && rows[i].backend == name ensures Waiting(s, rows[i], r) {
      assert Waiting(s, rows[i], w) && rows[n].id != rows[i].id;
    }
  }

  lemma ReadyAt(s: State, rows: seq<Row>, envs: seq<Env>, n: nat)
    requires AllReady(s, rows, envs) && n < |rows|
    ensures Quiet(envs[n]) && Ready(s, rows[n], envs[n])
  {}

  lemma TracksValid(w: Sweep, name: string)
    requires Tracks(w, name)
    ensures w.Valid()
  {}

  /** The rules of a backend's other prefixes are as they were. */
  ghost predicate OtherRules(w: Sweep, r: Sweep, row: Row) {
    row.backend in w.s.backends && row.backend in r.s.backends
    && forall x :: Plain(x) && (w.s.backends[row.backend].s3 && HasSuffix(row.ref, "/") ==> x != RuleID(row.ref)) ==>
         (x in IdsNow(r, row.backend) <==> x in IdsNow(w, row.backend))
         && (x in AddsNow(r, row.backend) ==> x in AddsNow(w, row.backend))
  }

  /** Different prefixes of a backend have different rules. */
  lemma RulesDiffer(s: State, rows: seq<Row>, envs: seq<Env>, i: nat, n: nat)
    requires AllReady(s, rows, envs) && i < |rows| && n < |rows| && i != n && rows[i].backend == rows[n].backend
    requires rows[n].backend in s.backends && s.backends[rows[n].backend].s3 && HasSuffix(rows[i].ref, "/")
    ensures Plain(RuleID(rows[i].ref)) && (HasSuffix(rows[n].ref, "/") ==> RuleID(rows[i].ref) != RuleID(rows[n].ref))
  {
    ReadyAt(s, rows, envs, i);
    ReadyAt(s, rows, envs, n);
    hide RuleID, Plain, OneSlash, Quiet;
    if HasSuffix(rows[n].ref, "/") && RuleID(rows[i].ref) == RuleID(rows[n].ref) {
      RuleIDInjective(rows[i].ref, rows[n].ref);
    }
  }

  /** A row's turn leaves the settled rows of its backend settled, and the waiting ones waiting. */
  lemma OwnOthers(s: State, rows: seq<Row>, envs: seq<Env>, name: string, n: nat, w: Sweep, r: Sweep, i: nat)
    requires Passed(s, rows, envs, name, n, w) && n < |rows| && rows[n].backend == name
    requires name in r.s.backends && r.s.backends[name].objects <= w.s.backends[name].objects
    requires SameBut(w.s.journal, r.s.journal, rows[n].id) && OtherRules(w, r, rows[n])
    requires i < |rows| && i != n && rows[i].backend == name
    ensures if i < n then Settled(s, rows, envs, i, r.s.journal, r.s.backends[name].objects, IdsNow(r, name))
            else Waiting(s, rows[i], r)
  {
    hide RuleID, Plain, HasSuffix, IdsNow, AddsNow, Left, Tracks, Settled, Ready;
    if s.backends[name].s3 && HasSuffix(rows[i].ref, "/") {
      RulesDiffer(s, rows, envs, i, n);
    }
    assert rows[i].id != rows[n].id;
    if i < n {
      StaysSettled(s, rows, envs, i, n, w, r);
    } else {
      assert Waiting(s, rows[i], w);
    }
  }

  /** The row's own turn: it is settled, and the others stay as they are. */
  lemma OwnTurn(s: State, rows: seq<Row>, envs: seq<Env>, name: string, n: nat, w: Sweep)
    requires Passed(s, rows, envs, name, n, w) && n < |rows| && rows[n].backend == name && w.back == Some(name)
    ensures name in w.s.backends && Passed(s, rows, envs, name, n + 1, SweepPrune(w, rows[n], envs[n]))
  {
    var row, env := rows[n], envs[n];
    var r := SweepPrune(w, row, env);
    LeftNext(s, rows, name, n);
    OwnSettled(s, rows, envs, name, n, w);
    hide SweepPrune, IdsNow, AddsNow, Left, Tracks, Settled, Waiting, AllReady, Taken, OtherRules,
         SameBut;
    forall i | 0 <= i < |rows| && i != n && rows[i].backend == name
      ensures if i < n then Settled(s, rows, envs, i, r.s.journal, r.s.backends[name].objects, IdsNow(r, name))
              else Waiting(s, rows[i], r)
    {
      OwnOthers(s, rows, envs, name, n, w, r, i);
    }
  }

  /** What the row's own turn does to its backend. */
  ghost predicate Turned(s: State, rows: seq<Row>, envs: seq<Env>, name: string, n: nat, w: Sweep, r: Sweep)
    requires n < |rows| == |envs| && rows[n].backend == name && name in s.backends && name in w.s.backends
    requires rows[n].id in s.journal
  {
    Tracks(r, name) && OtherRules(w, r, rows[n]) && SameBut(w.s.journal, r.s.journal, rows[n].id)
    && r.s.backends[name]
       == w.s.backends[name].(objects := set o | o in Left(s, rows, name, n)
                                                 && !Taken(s.backends[name], rows[n].ref, o))
    && Settled(s, rows, envs, n, r.s.journal, r.s.backends[name].objects, IdsNow(r, name))
  }

  lemma OwnSettled(s: State, rows: seq<Row>, envs: seq<Env>, name: string, n: nat, w: Sweep)
    requires Passed(s, rows, envs, name, n, w) && n < |rows| && rows[n].backend == name && w.back == Some(name)
    ensures name in w.s.backends && Turned(s, rows, envs, name, n, w, SweepPrune(w, rows[n], envs[n]))
  {
    ReadyAt(s, rows, envs, n);
    assert Waiting(s, rows[n], w);
    hide SweepPrune, RuleID, Plain, OneSlash, Under, HasSuffix, Taken, IdsNow, AddsNow, Left, Tracks, Quiet, Settled,
         Turned;
    if s.backends[name].s3 && HasSuffix(rows[n].ref, "/") {
      PrefixSettled(s, rows, envs, name, n, w);
    } else {
      PlainSettled(s, rows, envs, name, n, w);
    }
  }

  lemma PrefixSettled(s: State, rows: seq<Row>, envs: seq<Env>, name: string, n: nat, w: Sweep)
    requires n < |rows| == |envs| && rows[n].backend == name && w.back == Some(name) && Tracks(w, name)
    requires name in s.backends && name in w.s.backends && s.backends[name].s3 && HasSuffix(rows[n].ref, "/")
    requires w.s.backends[name]
          == s.backends[name].(objects := Left(s, rows, name, n), rules := w.s.backends[name].rules)
    requires Ready(s, rows[n], envs[n]) && Waiting(s, rows[n], w)
    ensures Turned(s, rows, envs, name, n, w, SweepPrune(w, rows[n], envs[n]))
  {
    hide SweepPrune, RuleID, Plain, OneSlash, Under, HasSuffix, Taken, IdsNow, AddsNow, Left, Tracks, Quiet;
    PrefixTurn(w, rows[n], envs[n]);
    NothingTaken(s.backends[name], rows[n].ref, Left(s, rows, name, n));
  }

  lemma PlainSettled(s: State, rows: seq<Row>, envs: seq<Env>, name: string, n: nat, w: Sweep)
    requires n < |rows| == |envs| && rows[n].backend == name && w.back == Some(name) && Tracks(w, name)
    requires name in s.backends && name in w.s.backends && !(s.backends[name].s3 && HasSuffix(rows[n].ref, "/"))
    requires w.s.backends[name]
          == s.backends[name].(objects := Left(s, rows, name, n), rules := w.s.backends[name].rules)
    requires Ready(s, rows[n], envs[n])
    ensures Turned(s, rows, envs, name, n, w, SweepPrune(w, rows[n], envs[n]))
  {
    hide SweepPrune, RuleID, Plain, OneSlash, Under, HasSuffix, Taken, IdsNow, AddsNow, Left, Tracks, Quiet;
    PlainTurn(w, rows[n], envs[n]);
    NothingUnder(s.backends[name], rows[n].ref, Left(s, rows, name, n));
    TakenSame(s.backends[name], w.s.backends[name], rows[n].ref);
  }

  lemma TakenSame(a: Backend, b: Backend, ref: string)
    requires a.s3 == b.s3
    ensures forall o :: Taken(a, ref, o) <==> Taken(b, ref, o)
  {
    hide HasSuffix, HasPrefix, TrimRight;
  }

  lemma NothingTaken(b: Backend, ref: string, objects: set<string>)
    requires b.s3 && HasSuffix(ref, "/")
    ensures (set o | o in objects && !Taken(b, ref, o)) == objects
  {
    hide HasSuffix, HasPrefix, TrimRight;
  }

  lemma NothingUnder(b: Backend, ref: string, objects: set<string>)
    requires !(b.s3 && HasSuffix(ref, "/"))
    ensures Under((set o | o in objects && !Taken(b, ref, o)), ref) == {}
  {
    hide HasPrefix, TrimRight, HasSuffix;
    FilesCover(objects, ref);
    assert forall o :: o in Under(objects, ref) ==> o in Files(objects, ref);
    assert forall o :: o in objects && !Taken(b, ref, o) ==> o !in Under(objects, ref);
  }

  /** After a pass in which nothing fails, every entry is settled. */
  lemma SweepPasses(s: State, rows: seq<Row>, envs: seq<Env>, name: string)
    requires AllReady(s, rows, envs) && name in s.backends
    ensures Passed(s, rows, envs, name, |rows|, SweepRows(StartSweep(s), rows, envs))
  {
    SweepPassesTo(s, rows, envs, name, |rows|);
    assert rows[..|rows|] == rows && envs[..|rows|] == envs;
  }

  lemma {:induction false} SweepPassesTo(s: State, rows: seq<Row>, envs: seq<Env>, name: string, n: nat)
    requires AllReady(s, rows, envs) && name in s.backends && n <= |rows| == |envs|
    ensures Passed(s, rows, envs, name, n, SweepRows(StartSweep(s), rows[..n], envs[..n]))
  {
    hide SweepRow, Passed, AllReady;
    if n == 0 {
      NonePassed(s, rows, envs, name);
    } else {
      SweepPassesTo(s, rows, envs, name, n - 1);
      var w := SweepRows(StartSweep(s), rows[..n - 1], envs[..n - 1]);
      assert rows[..n][..n - 1] == rows[..n - 1] && envs[..n][..n - 1] == envs[..n - 1];
      RowPasses(s, rows, envs, name, n - 1, w);
    }
  }

  lemma NonePassed(s: State, rows: seq<Row>, envs: seq<Env>, name: string)
    requires AllReady(s, rows, envs) && name in s.backends
    ensures Passed(s, rows, envs, name, 0, StartSweep(s))
  {
    hide Taken, RuleID, Plain, OneSlash, Quiet, HasSuffix;
    assert Left(s, rows, name, 0) == s.backends[name].objects;
    forall i | 0 <= i < |rows| && rows[i].backend == name ensures Waiting(s, rows[i], StartSweep(s)) {
      ReadyAt(s, rows, envs, i);
    }
  }

  lemma RowPasses(s: State, rows: seq<Row>, envs: seq<Env>, name: string, n: nat, w: Sweep)
    requires Passed(s, rows, envs, name, n, w) && n < |rows|
    ensures w.Valid() && Passed(s, rows, envs, name, n + 1, SweepRow(w, rows[n], envs[n]))
  {
    if rows[n].backend != name {
      PassedOther(s, rows, envs, name, n, w);
    } else {
      ReadyAt(s, rows, envs, n);
      TracksValid(w, name);
      hide Tracks, Ready, Quiet, SweepRow, Settled, Waiting, AllReady, Prepared, SweepPrune;
      PreparedTracks(w, rows[n], envs[n]);
      var p := Prepared(w, rows[n], envs[n]);
      PassedSame(s, rows, envs, name, n, w, p);
      OwnTurn(s, rows, envs, name, n, p);
    }
  }

  /** Without faults one pass of the collector settles every due entry: those of the file system and of
      single objects are gone with what they name; a prefix in S3 whose time is over and under which
      nothing is left loses its entry and its rule; and each other waits five more days, with its rule
      committed. No object goes that no entry names. */
  lemma CollectSettles(s: State, rows: seq<Row>, envs: seq<Env>, i: nat)
    requires AllReady(s, rows, envs) && i < |rows| && rows[i].backend in s.backends
    ensures var r, name := Collect(s, rows, envs, false).s, rows[i].backend;
            Settled(s, rows, envs, i, r.journal, r.backends[name].objects, Ids(r.backends[name].rules))
            && r.backends[name].objects == Left(s, rows, name, |rows|)
  {
    var name := rows[i].backend;
    SweepPasses(s, rows, envs, name);
    var w := SweepRows(StartSweep(s), rows, envs);
    hide SweepRows, Settled, AllReady, Left, Waiting, Ready;
    CommitSame(w, name);
  }

  // ---- Pruning a backend's references ---------------------------------------------------------------------------

  /** A reference as callers prune it. */
  predicate CallersRef(b: Backend, ref: string) {
    b.s3 && HasSuffix(ref, "/") ==> OneSlash(ref) && Plain(RuleID(ref))
  }

  /** The loop over a backend's references, so far without an error. */
  ghost predicate Going(p: Pruning, name: string) {
    !p.stopped && Numbered(p.s) && name in p.s.backends
    && if p.s.backends[name].s3 then p.job.Some? && Sound(p.job.value) && p.job.value.rules == p.s.backends[name].rules
       else p.job.None?
  }

  /** The IDs of the rules that the job would commit. */
  function JobIds(p: Pruning): set<string> {
    if p.job.Some? then Ids(p.job.value.Config()) else {}
  }

  /** A file-system reference, or a single object in S3, goes at once; no entry is left for it. */
  lemma PlainPruned(p: Pruning, name: string, ref: string, env: Env)
    requires Going(p, name) && Quiet(env) && !(p.s.backends[name].s3 && HasSuffix(ref, "/"))
    ensures var r, b := PruneOne(p, name, ref, env), p.s.backends[name];
            Going(r, name) && r.s.journal == p.s.journal && r.job == p.job
            && r.s.backends == p.s.backends[name := b.(objects := set o | o in b.objects && !Taken(b, ref, o))]
  {
    hide Sound, Job.Config, RuleID, HasSuffix, Taken, Files, HasEntry;
    TakenAre(p.s.backends[name], ref);
  }

  /** The entry that pruning a prefix in S3 makes: with a prune time when its rule is new. */
  function NewEntry(p: Pruning, name: string, ref: string, env: Env): Entry {
    Entry(name, ref, if RuleID(ref) in JobIds(p) then None else Some(env.now + FIVE_DAYS), 2)
  }

  /** A prefix in S3 gets an entry if it has none, and a rule if it has none. */
  lemma PrefixPruned(p: Pruning, name: string, ref: string, env: Env)
    requires Going(p, name) && Quiet(env) && p.s.backends[name].s3 && HasSuffix(ref, "/") && Plain(RuleID(ref))
    ensures var r := PruneOne(p, name, ref, env);
            Going(r, name) && r.s.backends == p.s.backends
            && r.s.journal == (if HasEntry(p.s, name, ref) then p.s.journal
                               else p.s.journal[p.s.next := NewEntry(p, name, ref, env)])
            && forall x :: Plain(x) ==> (x in JobIds(r) <==> x == RuleID(ref) || x in JobIds(p))
  {
    hide Sound, Job.Config, Job.Add, RuleID, Plain, Under, HasEntry;
    var j, id := p.job.value, RuleID(ref);
    SoundAt(j, id);
    if id !in JobIds(p) {
      AddSound(j, j.RmRule(ref));
    }
    assert p.s.backends == p.s.backends[name := p.s.backends[name]];
    if id in j.ruleMap {
      AddRefused(j, ref);
    }
  }

  lemma AddRefused(j: Job, ref: string)
    requires RuleID(ref) in j.ruleMap
    ensures j.Add(j.RmRule(ref)) == (j, false)
  {
    hide RuleID;
  }

  /** The objects left once the first n references are pruned. */
  function LeftBy(b: Backend, refs: seq<string>, n: nat): set<string>
    requires n <= |refs|
  {
    set o | o in b.objects && forall i :: 0 <= i < n ==> !Taken(b, refs[i], o)
  }

  /** The entry of the first pruning of a prefix that had none. */
  ghost predicate MadeFor(s: State, name: string, refs: seq<string>, envs: seq<Env>, i: nat, e: Entry)
    requires i < |refs| == |envs| && name in s.backends
  {
    s.backends[name].s3 && HasSuffix(refs[i], "/") && !HasEntry(s, name, refs[i])
    && (forall k :: 0 <= k < i ==> refs[k] != refs[i])
    && e == Entry(name, refs[i],
                  if RuleID(refs[i]) in Ids(s.backends[name].rules) then None else Some(envs[i].now + FIVE_DAYS), 2)
  }

  /** The entries are the old ones and those made for the first n references. */
  ghost predicate EntriesMade(s: State, name: string, refs: seq<string>, envs: seq<Env>, n: nat, t: State)
    requires n <= |refs| == |envs| && name in s.backends
  {
    (forall id :: id in s.journal ==> id in t.journal && t.journal[id] == s.journal[id])
    && (forall id :: id in t.journal ==>
          id in s.journal || exists i: nat :: i < n && MadeFor(s, name, refs, envs, i, t.journal[id]))
    && forall i :: 0 <= i < n && s.backends[name].s3 && HasSuffix(refs[i], "/") ==> HasEntry(t, name, refs[i])
  }

  /** The rules to commit are those of the bucket and of the first n references. */
  ghost predicate RulesMade(b: Backend, refs: seq<string>, n: nat, ids: set<string>)
    requires n <= |refs|
  {
    forall x :: Plain(x) ==>
      (x in ids <==> x in Ids(b.rules) || exists i :: 0 <= i < n && HasSuffix(refs[i], "/") && x == RuleID(refs[i]))
  }

  ghost predicate PrunedTo(s: State, name: string, refs: seq<string>, envs: seq<Env>, n: nat, p: Pruning) {
    name in s.backends && n <= |refs| == |envs| && Going(p, name)
    && p.s.backends == s.backends[name := s.backends[name].(objects := LeftBy(s.backends[name], refs, n))]
    && (s.backends[name].s3 ==> RulesMade(s.backends[name], refs, n, JobIds(p)))
    && EntriesMade(s, name, refs, envs, n, p.s)
  }

  lemma LeftByNext(b: Backend, like: Backend, refs: seq<string>, n: nat)
    requires n < |refs| && like.s3 == b.s3
    ensures LeftBy(b, refs, n + 1) == set o | o in LeftBy(b, refs, n) && !Taken(like, refs[n], o)
  {
    TakenSame(b, like, refs[n]);
    hide Taken;
  }

  lemma OnePruned(s: State, name: string, refs: seq<string>, envs: seq<Env>, n: nat, p: Pruning)
    requires PrunedTo(s, name, refs, envs, n, p) && n < |refs| && Quiet(envs[n])
    requires forall i :: 0 <= i < |refs| ==> CallersRef(s.backends[name], refs[i])
    ensures name in p.s.backends && PrunedTo(s, name, refs, envs, n + 1, PruneOne(p, name, refs[n], envs[n]))
  {
    hide PruneOne, RuleID, Plain, OneSlash, HasSuffix, Taken, HasEntry, Going, Quiet, JobIds, RulesMade, EntriesMade,
         LeftBy, CallersRef;
    var b := s.backends[name];
    LeftByNext(b, p.s.backends[name], refs, n);
    var r := PruneOne(p, name, refs[n], envs[n]);
    if b.s3 && HasSuffix(refs[n], "/") {
      assert CallersRef(b, refs[n]);
      CallersPrefix(b, refs[n]);
      PrefixPruned(p, name, refs[n], envs[n]);
      NothingTaken(p.s.backends[name], refs[n], LeftBy(b, refs, n));
      RulesNext(b, refs, n, JobIds(p), JobIds(r));
      EntriesPrefix(s, name, refs, envs, n, p, r);
    } else {
      PlainPruned(p, name, refs[n], envs[n]);
      SameIds(p, r);
      RulesSame(b, refs, n, JobIds(p));
      EntriesPlain(s, name, refs, envs, n, p.s, r.s);
    }
  }

  lemma SameIds(p: Pruning, r: Pruning)
    requires r.job == p.job
    ensures JobIds(r) == JobIds(p)
  {}

  lemma CallersPrefix(b: Backend, ref: string)
    requires CallersRef(b, ref) && b.s3 && HasSuffix(ref, "/")
    ensures OneSlash(ref) && Plain(RuleID(ref))
  {}

  lemma RulesNext(b: Backend, refs: seq<string>, n: nat, ids: set<string>, ids': set<string>)
    requires n < |refs| && RulesMade(b, refs, n, ids) && HasSuffix(refs[n], "/")
    requires forall x :: Plain(x) ==> (x in ids' <==> x == RuleID(refs[n]) || x in ids)
    ensures RulesMade(b, refs, n + 1, ids')
  {
    hide RuleID, Plain, HasSuffix;
  }

  lemma RulesSame(b: Backend, refs: seq<string>, n: nat, ids: set<string>)
    requires n < |refs| && (b.s3 ==> RulesMade(b, refs, n, ids) && !HasSuffix(refs[n], "/"))
    ensures b.s3 ==> RulesMade(b, refs, n + 1, ids)
  {
    hide RuleID, Plain, HasSuffix;
  }

  lemma EntriesPlain(s: State, name: string, refs: seq<string>, envs: seq<Env>, n: nat, t: State, r: State)
    requires n < |refs| == |envs| && name in s.backends && EntriesMade(s, name, refs, envs, n, t)
    requires !(s.backends[name].s3 && HasSuffix(refs[n], "/")) && r.journal == t.journal
    ensures EntriesMade(s, name, refs, envs, n + 1, r)
  {
    hide RuleID, HasSuffix, MadeFor;
  }

  lemma EntriesPrefix(s: State, name: string, refs: seq<string>, envs: seq<Env>, n: nat, p: Pruning, r: Pruning)
    requires PrunedTo(s, name, refs, envs, n, p) && n < |refs| && s.backends[name].s3 && HasSuffix(refs[n], "/")
    requires forall i :: 0 <= i < |refs| ==> CallersRef(s.backends[name], refs[i])
    requires r.s.journal == (if HasEntry(p.s, name, refs[n]) then p.s.journal
                             else p.s.journal[p.s.next := NewEntry(p, name, refs[n], envs[n])])
    ensures EntriesMade(s, name, refs, envs, n + 1, r.s)
  {
    hide RuleID, HasSuffix, Plain, OneSlash, LeftBy, JobIds, CallersRef, Taken;
    var ref := refs[n];
    assert forall id :: id in s.journal ==> p.s.journal[id] == s.journal[id];
    if !HasEntry(p.s, name, ref) {
      assert p.s.next !in p.s.journal;
      forall k | 0 <= k < n ensures refs[k] != ref {}
      FreshRuleOnly(s, name, refs, envs, n, p);
      var e := NewEntry(p, name, ref, envs[n]);
      assert MadeFor(s, name, refs, envs, n, e);
      assert r.s.journal[p.s.next] == e;
      forall i | 0 <= i < n + 1 && HasSuffix(refs[i], "/") ensures HasEntry(r.s, name, refs[i]) {
        if i < n {
          var id :| id in p.s.journal && p.s.journal[id].backend == name && p.s.journal[id].ref == refs[i];
          assert r.s.journal[id] == p.s.journal[id];
        }
      }
    }
  }

  /** A prefix without an entry has its rule in the job exactly when the bucket had it. */
  lemma FreshRuleOnly(s: State, name: string, refs: seq<string>, envs: seq<Env>, n: nat, p: Pruning)
    requires PrunedTo(s, name, refs, envs, n, p) && n < |refs| && s.backends[name].s3 && HasSuffix(refs[n], "/")
    requires forall i :: 0 <= i < |refs| ==> CallersRef(s.backends[name], refs[i])
    requires forall k :: 0 <= k < n ==> refs[k] != refs[n]
    ensures RuleID(refs[n]) in JobIds(p) <==> RuleID(refs[n]) in Ids(s.backends[name].rules)
  {
    hide RuleID, Plain, OneSlash, LeftBy, JobIds, HasSuffix, EntriesMade;
    assert CallersRef(s.backends[name], refs[n]);
    forall i | 0 <= i < n && HasSuffix(refs[i], "/") ensures RuleID(refs[i]) != RuleID(refs[n]) {
      assert CallersRef(s.backends[name], refs[i]);
      if RuleID(refs[i]) == RuleID(refs[n]) {
        RuleIDInjective(refs[i], refs[n]);
      }
    }
  }

  lemma {:induction false} AllPruned(s: State, name: string, refs: seq<string>, envs: seq<Env>, n: nat, p0: Pruning)
    requires PrunedTo(s, name, refs, envs, 0, p0) && n <= |refs| == |envs| && name in p0.s.backends
    requires forall i :: 0 <= i < |refs| ==> Quiet(envs[i]) && CallersRef(s.backends[name], refs[i])
    ensures PrunedTo(s, name, refs, envs, n, PruneLoop(p0, name, refs[..n], envs[..n]))
  {
    hide PrunedTo, PruneOne, Quiet, CallersRef;
    assert refs[..0] == [] && envs[..0] == [];
    if n > 0 {
      AllPruned(s, name, refs, envs, n - 1, p0);
      assert refs[..n][..n - 1] == refs[..n - 1] && envs[..n][..n - 1] == envs[..n - 1];
      OnePruned(s, name, refs, envs, n - 1, PruneLoop(p0, name, refs[..n - 1], envs[..n - 1]));
    }
  }

  lemma StartPruned(s: State, name: string, refs: seq<string>, envs: seq<Env>)
    requires Numbered(s) && name in s.backends && |refs| == |envs|
    ensures var b := s.backends[name];
            PrunedTo(s, name, refs, envs, 0, Pruning(s, if b.s3 then Some(StartJob(b)) else None, {}, false))
  {
    hide Taken, HasSuffix, RuleID, Plain, Sound, StartJob, Job.Config, MadeFor, HasEntry;
    var b := s.backends[name];
    StartSound(b);
    assert LeftBy(b, refs, 0) == b.objects;
    assert s.backends == s.backends[name := b];
  }

  /** The commit of the job leaves the journal and the objects alone. */
  lemma CommitPruned(s: State, name: string, refs: seq<string>, envs: seq<Env>, n: nat, p: Pruning)
    requires PrunedTo(s, name, refs, envs, n, p) && name in p.s.backends
    ensures var r, b := CommitJob(p.s, name, p.job, false), s.backends[name];
            EntriesMade(s, name, refs, envs, n, r) && r.journal == p.s.journal
            && r.backends == p.s.backends[name := p.s.backends[name].(rules := r.backends[name].rules)]
            && (if b.s3 then RulesMade(b, refs, n, Ids(r.backends[name].rules)) else r.backends[name].rules == b.rules)
  {
    hide RulesMade, LeftBy, Sound, Job.Config, MadeFor;
    if p.job.Some? && !p.job.value.Changed() {
      UnchangedConfig(p.job.value);
    }
    assert p.s.backends == p.s.backends[name := p.s.backends[name]];
  }

  lemma LeftByNothing(b: Backend, refs: seq<string>, i: nat)
    requires i < |refs| && !(b.s3 && HasSuffix(refs[i], "/"))
    ensures Under(LeftBy(b, refs, |refs|), refs[i]) == {}
  {
    hide Taken, HasSuffix;
    NothingUnder(b, refs[i], b.objects);
    UnderShrinks((set o | o in b.objects && !Taken(b, refs[i], o)), LeftBy(b, refs, |refs|), refs[i]);
  }

  lemma SameEntriesSame(a: map<int, Entry>, b: map<int, Entry>)
    requires forall id :: id in b <==> id in a
    requires forall id :: id in a ==> b[id] == a[id]
    ensures b == a
  {
    forall id ensures id in b.Keys <==> id in a.Keys {}
    assert b.Keys == a.Keys;
    forall id | id in b ensures b[id] == a[id] {}
  }

  /** On the file system no entry is left that was not there. */
  lemma NoEntriesMade(s: State, name: string, refs: seq<string>, envs: seq<Env>, t: State)
    requires |refs| == |envs| && name in s.backends && !s.backends[name].s3
    requires EntriesMade(s, name, refs, envs, |refs|, t)
    ensures t.journal == s.journal
  {
    hide HasSuffix, HasEntry;
    forall id ensures id in t.journal <==> id in s.journal {
      if id in t.journal && id !in s.journal {
        assert false;
      }
    }
    SameEntriesSame(s.journal, t.journal);
  }

  /** Without faults, PruneBackendRefs succeeds. What it takes is gone at once: on the file system all that
      lies under a reference, in S3 the single objects, and no entry is left for them. A prefix in S3 has an
      entry and a rule afterwards; a new entry has a prune time exactly when the rule is new as well. No
      other object goes, and no other entry changes. */
  lemma PruneRefsAchieves(s: State, name: string, refs: seq<string>, envs: seq<Env>)
    requires Numbered(s) && name in s.backends && !s.backends[name].disablePrune && |refs| == |envs|
    requires forall i :: 0 <= i < |refs| ==> Quiet(envs[i]) && CallersRef(s.backends[name], refs[i])
    ensures var (r, ok, _) := PruneRefs(s, name, refs, envs, false, false);
            var b := s.backends[name];
            ok && r.backends.Keys == s.backends.Keys
            && (forall x :: x in s.backends && x != name ==> r.backends[x] == s.backends[x])
            && r.backends[name].objects == LeftBy(b, refs, |refs|)
            && (forall i :: 0 <= i < |refs| && !(b.s3 && HasSuffix(refs[i], "/")) ==>
                  Under(r.backends[name].objects, refs[i]) == {})
            && EntriesMade(s, name, refs, envs, |refs|, r)
            && (if b.s3 then RulesMade(b, refs, |refs|, Ids(r.backends[name].rules))
                else r.backends[name].rules == b.rules && r.journal == s.journal)
  {
    hide PruneLoop, RulesMade, EntriesMade, Taken, LeftBy, Quiet, CallersRef, HasSuffix, Under, Sound, Job.Config;
    var b := s.backends[name];
    var p0 := Pruning(s, if b.s3 then Some(StartJob(b)) else None, {}, false);
    StartPruned(s, name, refs, envs);
    AllPruned(s, name, refs, envs, |refs|, p0);
    assert refs[..|refs|] == refs && envs[..|refs|] == envs;
    var p := PruneLoop(p0, name, refs, envs);
    var r := PruneRefs(s, name, refs, envs, false, false).0;
    CommitPruned(s, name, refs, envs, |refs|, p);
    forall i | 0 <= i < |refs| && !(b.s3 && HasSuffix(refs[i], "/"))
      ensures Under(r.backends[name].objects, refs[i]) == {}
    {
      LeftByNothing(b, refs, i);
    }
    if !b.s3 {
      NoEntriesMade(s, name, refs, envs, r);
    }
  }

  // ---- What a pass reports ------------------------------------------------------------------------------------------

  /** The row's turn drops its entry and counts it, or does neither. */
  ghost predicate Counts(w: Sweep, r: Sweep, id: int) {
    (r.s.journal.Keys == w.s.journal.Keys && r.count == w.count)
    || (id in w.s.journal && r.s.journal.Keys == w.s.journal.Keys - {id} && r.count == w.count + 1)
  }

  lemma SweepPruneReports(w: Sweep, row: Row, env: Env)
    requires row.backend in w.s.backends && row.id in w.s.journal
    ensures Counts(w, SweepPrune(w, row, env), row.id) && Counts(w, IncrementTries(w, row, env), row.id)
  {
    hide PruneRef;
  }

  lemma SweepRowReports(w: Sweep, row: Row, env: Env)
    requires w.Valid() && row.id in w.s.journal
    ensures Counts(w, SweepRow(w, row, env), row.id)
  {
    hide SweepPrune, IncrementTries, StartJob, CommitJob, ErrCount;
    var w2 := TurnTo(w, row, env);
    assert w2.s.journal == w.s.journal && w2.count == w.count;
    if w2.back.Some? {
      var b := w2.s.backends[row.backend];
      var w1 := w2.(jobErrors := w2.jobErrors + {row.backend});
      var w3 := if w.back != Some(row.backend) && b.s3 then w2.(job := Some(StartJob(b))) else w2;
      hide TurnTo;
      SweepPruneReports(w2, row, env);
      SweepPruneReports(w1, row, env);
      SweepPruneReports(w3, row, env);
    }
  }

  lemma {:induction false} SweepRowsReport(s: State, rows: seq<Row>, envs: seq<Env>, n: nat)
    requires n <= |rows| == |envs| && Snapshot(s, rows)
    ensures var w := SweepRows(StartSweep(s), rows[..n], envs[..n]);
            w.count == |s.journal| - |w.s.journal|
            && forall i :: n <= i < |rows| ==> rows[i].id in w.s.journal
  {
    hide SweepRow;
    if n > 0 {
      SweepRowsReport(s, rows, envs, n - 1);
      assert rows[..n][..n - 1] == rows[..n - 1] && envs[..n][..n - 1] == envs[..n - 1];
      var w := SweepRows(StartSweep(s), rows[..n - 1], envs[..n - 1]);
      SweepRowReports(w, rows[n - 1], envs[n - 1]);
      assert |w.s.journal| == |w.s.journal.Keys|;
      var r := SweepRow(w, rows[n - 1], envs[n - 1]);
      assert |r.s.journal| == |r.s.journal.Keys|;
    }
  }

  /** Whatever fails, the collector reports as many entries as the journal has lost. */
  lemma CollectReports(s: State, rows: seq<Row>, envs: seq<Env>, commitFails: bool)
    requires |rows| == |envs| && Snapshot(s, rows)
    ensures var w := Collect(s, rows, envs, commitFails); w.count == |s.journal| - |w.s.journal|
  {
    hide SweepRows, CommitJob;
    SweepRowsReport(s, rows, envs, |rows|);
    assert rows[..|rows|] == rows && envs[..|rows|] == envs;
  }

  /** Every prune of a backend's rows fails, and is counted. */
  ghost predicate AllFail(s: State, rows: seq<Row>, envs: seq<Env>, name: string) {
    |rows| == |envs| && name in s.backends && !s.backends[name].s3 && Snapshot(s, rows)
    && forall i :: 0 <= i < |rows| ==>
         rows[i].backend == name && envs[i].pruneFails && envs[i].removed == {} && !envs[i].cancelled
         && !envs[i].incrementFails
  }

  /** After the first n rows of a failing backend. */
  ghost predicate Failed(s: State, rows: seq<Row>, name: string, n: nat, w: Sweep) {
    w.Valid() && w.job.None? && w.back == (if n == 0 then None else Some(name)) && name !in w.jobErrors
    && ErrCount(w, name) == (if n < 5 then n else 5) && w.s.backends == s.backends && w.attempted == w.count == 0
    && w.s.journal.Keys == s.journal.Keys
    && forall i :: 0 <= i < |rows| && rows[i].id in s.journal ==>
         w.s.journal[rows[i].id]
         == s.journal[rows[i].id].(tries := s.journal[rows[i].id].tries + (if i < n && i < 5 then 1 else 0))
  }

  lemma {:induction false} FailingSweep(s: State, rows: seq<Row>, envs: seq<Env>, name: string, n: nat)
    requires AllFail(s, rows, envs, name) && n <= |rows| == |envs|
    ensures Failed(s, rows, name, n, SweepRows(StartSweep(s), rows[..n], envs[..n]))
  {
    hide SweepRow, AllFail, Failed;
    if n == 0 {
      NoneFailed(s, rows, envs, name);
    } else {
      FailingSweep(s, rows, envs, name, n - 1);
      assert rows[..n][..n - 1] == rows[..n - 1] && envs[..n][..n - 1] == envs[..n - 1];
      FailingStep(s, rows, envs, name, n - 1, SweepRows(StartSweep(s), rows[..n - 1], envs[..n - 1]));
    }
  }

  lemma NoneFailed(s: State, rows: seq<Row>, envs: seq<Env>, name: string)
    requires AllFail(s, rows, envs, name)
    ensures Failed(s, rows, name, 0, StartSweep(s))
  {}

  lemma FailingStep(s: State, rows: seq<Row>, envs: seq<Env>, name: string, n: nat, w: Sweep)
    requires AllFail(s, rows, envs, name) && n < |rows| && Failed(s, rows, name, n, w)
    ensures w.Valid() && Failed(s, rows, name, n + 1, SweepRow(w, rows[n], envs[n]))
  {
    hide SweepRow, ErrCount;
    assert rows[n].id in s.journal;
    FailingRow(w, rows[n], envs[n], name);
  }

  lemma FailingRow(w: Sweep, row: Row, env: Env, name: string)
    requires w.Valid() && w.job.None? && (w.back.None? || w.back == Some(name)) && name !in w.jobErrors
    requires name in w.s.backends && !w.s.backends[name].s3 && row.backend == name && row.id in w.s.journal
    requires env.pruneFails && env.removed == {} && !env.cancelled && !env.incrementFails
    ensures var r, e := SweepRow(w, row, env), w.s.journal[row.id];
            r.Valid() && r.job.None? && r.back == Some(name) && name !in r.jobErrors && r.s.backends == w.s.backends
            && r.attempted == w.attempted && r.count == w.count
            && (if ErrCount(w, name) > 4 then r.s.journal == w.s.journal && ErrCount(r, name) == ErrCount(w, name)
                else
                  r.s.journal == w.s.journal[row.id := e.(tries := e.tries + 1)]
                  && ErrCount(r, name) == ErrCount(w, name) + 1)
  {
    hide Files, TrimRight;
    var b := w.s.backends[name];
    assert b.(objects := b.objects - (Files(b.objects, row.ref) * {})) == b;
    assert w.s.backends[name := b] == w.s.backends;
  }

  /** When every prune of a backend fails, five of its entries are tried, and the rest passed over. */
  lemma FailingBackendStops(s: State, rows: seq<Row>, envs: seq<Env>, name: string, commitFails: bool)
    requires AllFail(s, rows, envs, name)
    ensures var w := Collect(s, rows, envs, commitFails);
            w.s.backends == s.backends && w.s.journal.Keys == s.journal.Keys && w.count == w.attempted == 0
            && forall i :: 0 <= i < |rows| ==>
                 w.s.journal[rows[i].id]
                 == s.journal[rows[i].id].(tries := s.journal[rows[i].id].tries + (if i < 5 then 1 else 0))
  {
    hide SweepRows;
    FailingSweep(s, rows, envs, name, |rows|);
    assert rows[..|rows|] == rows && envs[..|rows|] == envs;
  }
}
