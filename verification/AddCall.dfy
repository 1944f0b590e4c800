/**
 Adding a call (AddCall of pkg/calls/callstore/store.go): its audio goes to the first backend that
 takes it (Store of pkg/calls/callstore/audio.go), its row to the database, and a pooled tracker
 (pkg/calls/callstore/reftracker.go) takes the audio back when the row does not make it.
 */
module AddCalls {
  import opened CivilTime
  import opened Intervals
  import opened GoStrings
  import opened AudioPaths

  datatype Disposition = OnErrorNext | OnErrorFail | OnErrorDB

  datatype BackendConfig = BackendConfig(name: string, onError: Disposition)

  datatype Config = Config(backends: seq<BackendConfig>, onExhaust: Disposition, partman: Option<Interval>)

  datatype Call = Call(id: string, name: Option<string>, date: Time)

  // A committed call, and the backend and reference of its audio; without one the audio is in the row.
  datatype Row = Row(call: Call, audio: Option<(string, AudioRef)>)

  datatype State = State(objects: map<string, set<string>>, rows: set<Row>)

  // How the insert of the row goes: committed, refused for an unknown talkgroup that is then learned
  // and tried again, or failed.
  datatype Insert = Commits | LearnFirst(learnFails: bool, retryFails: bool) | Fails

  // Who is authorized, which filters pass, which stores fail and leave their object all the same, how
  // the row fares, and which deletes fail after removing what.
  datatype Env = Env(denied: bool, accepts: set<string>, storeFails: set<string>, dirty: set<string>,
                     marshalFails: bool, insert: Insert, deleteFails: set<string>, removed: set<string>)

  predicate Known(cfg: Config, s: State) {
    forall i :: 0 <= i < |cfg.backends| ==> cfg.backends[i].name in s.objects
  }

  predicate ValidCall(call: Call) {
    IsUUID(call.id)
  }

  function Path(cfg: Config, call: Call): string
    requires ValidCall(call)
  {
    BlobPath(cfg.partman, call.id, call.name, call.date).0
  }

  function RefOf(cfg: Config, call: Call): AudioRef
    requires ValidCall(call)
  {
    MakeAudioRef(BlobPath(cfg.partman, call.id, call.name, call.date).1)
  }

  // ---- Storing the audio ---------------------------------------------------------------------------

  datatype Stored = InBackend(name: string) | InDatabase | Refused

  function Put(s: State, name: string, path: string): State
    requires name in s.objects
  {
    s.(objects := s.objects[name := s.objects[name] + {path}])
  }

  /** Store from the i-th backend on: the first that accepts takes the call, or fails as configured. */
  function StoreFrom(cfg: Config, s: State, path: string, env: Env, i: nat): (r: (State, Stored))
    requires Known(cfg, s) && i <= |cfg.backends|
    ensures r.0.objects.Keys == s.objects.Keys && r.0.rows == s.rows
    ensures r.1.InBackend? ==> r.1.name in s.objects
    decreases |cfg.backends| - i
  {
    if i == |cfg.backends| then (s, if cfg.onExhaust.OnErrorDB? then InDatabase else Refused)
    else
      var be := cfg.backends[i];
      if be.name !in env.accepts then StoreFrom(cfg, s, path, env, i + 1)
      else if be.name in env.storeFails then
        var s1 := if be.name in env.dirty then Put(s, be.name, path) else s;
        match be.onError
        case OnErrorFail => (s1, Refused)
        case OnErrorDB => (s1, InDatabase)
        case OnErrorNext => StoreFrom(cfg, s1, path, env, i + 1)
      else (Put(s, be.name, path), InBackend(be.name))
  }

  // ---- The tracker -------------------------------------------------------------------------------------

  /** DeleteBulk: all of them, or on failure some. */
  function DeleteBulk(objects: set<string>, refs: seq<string>, fails: bool, removed: set<string>): set<string> {
    if fails then objects - (Members(refs) * removed) else objects - Members(refs)
  }

  /** Every listed backend deletes its references. */
  function DeleteAll(objects: map<string, set<string>>, lists: map<string, seq<string>>, env: Env)
    : (r: map<string, set<string>>)
    ensures r.Keys == objects.Keys
  {
    map b | b in objects ::
      if b in lists then DeleteBulk(objects[b], lists[b], b in env.deleteFails, env.removed) else objects[b]
  }

  /** A backend's list, one longer. */
  function Listed(lists: map<string, seq<string>>, be: string, ref: string): map<string, seq<string>> {
    lists[be := (if be in lists then lists[be] else []) + [ref]]
  }

  /** The listed references, with their backends. */
  function Pairs(lists: map<string, seq<string>>): set<(string, string)> {
    set b, r | b in lists && r in lists[b] :: (b, r)
  }

  lemma ListedPairs(lists: map<string, seq<string>>, be: string, ref: string)
    ensures Pairs(Listed(lists, be, ref)) == Pairs(lists) + {(be, ref)}
  {
    var l := Listed(lists, be, ref);
    forall b, r ensures (b, r) in Pairs(l) <==> (b, r) in Pairs(lists) || (b == be && r == ref) {
      if b == be && r == ref {
        assert r in l[b];
      }
    }
  }

  lemma PairsAre(lists: map<string, seq<string>>, b: string, r: string)
    ensures (b, r) in Pairs(lists) <==> b in lists && r in lists[b]
  {}

  /** What is left of a backend's objects: those not listed, and those a failing delete had not reached. */
  lemma DeletesListed(objects: map<string, set<string>>, lists: map<string, seq<string>>, env: Env, b: string,
                      o: string)
    requires b in objects
    ensures o in DeleteAll(objects, lists, env)[b] <==>
      o in objects[b] && ((b, o) in Pairs(lists) ==> b in env.deleteFails && o !in env.removed)
  {
    PairsAre(lists, b, o);
  }

  /** The lists after references were listed one after the other. */
  function ListedAll(lists: map<string, seq<string>>, refs: seq<(string, string)>): map<string, seq<string>> {
    if refs == [] then lists
    else Listed(ListedAll(lists, refs[..|refs| - 1]), refs[|refs| - 1].0, refs[|refs| - 1].1)
  }

  /** References tracked one after the other on an emptied tracker, and then deleted, are the ones that go:
      without failures, exactly those. */
  lemma {:induction false} TrackedGo(lists: map<string, seq<string>>, refs: seq<(string, string)>,
                                     objects: map<string, set<string>>, env: Env, b: string, o: string)
    requires (forall be :: be in lists ==> lists[be] == []) && b in objects
    ensures Pairs(ListedAll(lists, refs)) == set r | r in refs
    ensures o in DeleteAll(objects, ListedAll(lists, refs), env)[b] <==>
      o in objects[b] && ((b, o) in refs ==> b in env.deleteFails && o !in env.removed)
  {
    hide DeleteAll, Listed, Pairs;
    if refs == [] {
      NoPairs(lists);
    } else {
      var n := |refs| - 1;
      TrackedGo(lists, refs[..n], objects, env, b, o);
      ListedPairs(ListedAll(lists, refs[..n]), refs[n].0, refs[n].1);
      assert refs == refs[..n] + [refs[n]];
    }
    DeletesListed(objects, ListedAll(lists, refs), env, b, o);
  }

  lemma NoPairs(lists: map<string, seq<string>>)
    requires forall be :: be in lists ==> lists[be] == []
    ensures Pairs(lists) == {}
  {}

  class RefTracker {
    var cre: map<string, seq<string>>
    var del: map<string, seq<string>>

    constructor ()
      ensures cre == map[] && del == map[]
    {
      cre := map[];
      del := map[];
    }

    /** Truncates every list, keeping the backends. */
    method Reset()
      modifies this
      ensures forall b :: b in cre ==> cre[b] == []
      ensures forall b :: b in del ==> del[b] == []
    {
      cre := map b | b in cre :: [];
      del := map b | b in del :: [];
    }

    method Created(be: string, ref: string)
      modifies this`cre
      ensures cre == Listed(old(cre), be, ref) && Pairs(cre) == old(Pairs(cre)) + {(be, ref)}
    {
      ListedPairs(cre, be, ref);
      cre := cre[be := (if be in cre then cre[be] else []) + [ref]];
    }

    method QueueDelete(be: string, ref: string)
      modifies this`del
      ensures del == Listed(old(del), be, ref) && Pairs(del) == old(Pairs(del)) + {(be, ref)}
    {
      ListedPairs(del, be, ref);
      del := del[be := (if be in del then del[be] else []) + [ref]];
    }

    /** Queues every reference of a call, in any order, up to one of an unknown backend; an empty backend
        name means the audio is in the row. */
    method QueueDeleteAll(known: set<string>, refs: map<string, AudioRef>, partman: Option<Interval>, callTime: Time)
      returns (ok: bool)
      modifies this`del
      ensures ok <==> refs.Keys - {""} <= known
      ensures ok ==> Pairs(del) == old(Pairs(del)) + RefPairs(refs, refs.Keys, partman, callTime)
      ensures old(Pairs(del)) <= Pairs(del) <= old(Pairs(del)) + RefPairs(refs, refs.Keys * known, partman, callTime)
    {
      hide Pairs, RefPairs, Listed, AudioRef.Ref;
      var todo := refs.Keys;
      ghost var done: set<string>, before := {}, Pairs(del);
      NoRefs(refs, done, partman, callTime);
      while todo != {}
        invariant todo + done == refs.Keys && done - {""} <= known
        invariant Pairs(del) == before + RefPairs(refs, done, partman, callTime)
        decreases |todo|
      {
        var be :| be in todo;
        if be != "" && be !in known {
          MoreRefs(refs, done, refs.Keys * known, partman, callTime);
          return false;
        }
        OneMoreRef(refs, done, be, partman, callTime);
        if be != "" {
          QueueDelete(be, refs[be].Ref(partman, callTime));
        }
        todo, done := todo - {be}, done + {be};
      }
      assert done == refs.Keys;
      MoreRefs(refs, done, refs.Keys * known, partman, callTime);
      ok := true;
    }

    /** Deletes every created object, backend by backend; reports whether all deletes succeeded. */
    method Rollback(objects: map<string, set<string>>, env: Env) returns (r: map<string, set<string>>, ok: bool)
      ensures r == DeleteAll(objects, cre, env)
      ensures ok <==> cre.Keys !! env.deleteFails
    {
      r, ok := DeleteLists(objects, cre, env);
    }

    /** Deletes every object queued for deletion; the tracker is reset only when all deletes succeeded. */
    method Commit(objects: map<string, set<string>>, env: Env) returns (r: map<string, set<string>>, ok: bool)
      modifies this
      ensures r == DeleteAll(objects, old(del), env)
      ensures ok <==> old(del).Keys !! env.deleteFails
      ensures ok ==> (forall b :: b in cre ==> cre[b] == []) && forall b :: b in del ==> del[b] == []
      ensures !ok ==> cre == old(cre) && del == old(del)
    {
      r, ok := DeleteLists(objects, del, env);
      if ok {
        Reset();
      }
    }
  }

  /** The objects that the references of some backends name. */
  function RefPairs(refs: map<string, AudioRef>, names: set<string>, partman: Option<Interval>, callTime: Time)
    : set<(string, string)>
  {
    set b | b in names && b in refs && b != "" :: (b, refs[b].Ref(partman, callTime))
  }

  lemma NoRefs(refs: map<string, AudioRef>, names: set<string>, partman: Option<Interval>, callTime: Time)
    requires names == {}
    ensures RefPairs(refs, names, partman, callTime) == {}
  {}

  lemma OneMoreRef(refs: map<string, AudioRef>, names: set<string>, be: string, partman: Option<Interval>,
                   callTime: Time)
    requires be in refs
    ensures RefPairs(refs, names + {be}, partman, callTime)
         == RefPairs(refs, names, partman, callTime)
            + (if be == "" then {} else {(be, refs[be].Ref(partman, callTime))})
  {
    hide AudioRef.Ref;
  }

  lemma MoreRefs(refs: map<string, AudioRef>, a: set<string>, b: set<string>, partman: Option<Interval>, callTime: Time)
    requires a - {""} <= b
    ensures RefPairs(refs, a, partman, callTime) <= RefPairs(refs, b, partman, callTime)
  {
    hide AudioRef.Ref;
  }

  /** The loop over the map of lists, in any order. */
  method DeleteLists(objects: map<string, set<string>>, lists: map<string, seq<string>>, env: Env)
    returns (r: map<string, set<string>>, ok: bool)
    ensures r == DeleteAll(objects, lists, env)
    ensures ok <==> lists.Keys !! env.deleteFails
  {
    r, ok := objects, true;
    var todo := lists.Keys;
    while todo != {}
      invariant todo <= lists.Keys
      invariant r == DeleteAll(objects, map b | b in lists && b !in todo :: lists[b], env)
      invariant ok <==> (lists.Keys - todo) !! env.deleteFails
      decreases |todo|
    {
      var b :| b in todo;
      if b in r {
        r := r[b := DeleteBulk(r[b], lists[b], b in env.deleteFails, env.removed)];
      }
      if b in env.deleteFails {
        ok := false;
      }
      todo := todo - {b};
    }
    assert (map b | b in lists && b !in todo :: lists[b]) == lists;
  }

  // ---- Adding a call ---------------------------------------------------------------------------------------

  /** The primary key of a row is the call's ID and date. */
  predicate KeyTaken(s: State, call: Call) {
    exists row :: row in s.rows && row.call.id == call.id && row.call.date == call.date
  }

  predicate Inserts(s: State, call: Call, env: Env) {
    !KeyTaken(s, call)
    && match env.insert
       case Commits => true
       case LearnFirst(learnFails, retryFails) => !learnFails && !retryFails
       case Fails => false
  }

  function TakeBack(s: State, name: string, path: string, env: Env): State
    requires name in s.objects
  {
    s.(objects := s.objects[name := DeleteBulk(s.objects[name], [path], name in env.deleteFails, env.removed)])
  }

  /** AddCall as a whole. */
  function AddCallSpec(cfg: Config, s: State, call: Call, env: Env): (r: (State, bool))
    requires Known(cfg, s) && ValidCall(call)
    ensures r.0.objects.Keys == s.objects.Keys
  {
    if env.denied then (s, false)
    else
      var (s1, stored) := StoreFrom(cfg, s, Path(cfg, call), env, 0);
      match stored
      case Refused => (s1, false)
      case InDatabase =>
        if Inserts(s1, call, env) then (s1.(rows := s1.rows + {Row(call, None)}), true) else (s1, false)
      case InBackend(name) =>
        if !env.marshalFails && Inserts(s1, call, env)
        then (s1.(rows := s1.rows + {Row(call, Some((name, RefOf(cfg, call))))}), true)
        else (TakeBack(s1, name, Path(cfg, call), env), false)
  }

  /** A tracker with one created object and nothing else to delete. */
  lemma OnlyCreated(objects: map<string, set<string>>, lists: map<string, seq<string>>, env: Env, name: string,
                    path: string)
    requires name in objects && name in lists && lists[name] == [path]
    requires forall b :: b in lists && b != name ==> lists[b] == []
    ensures DeleteAll(objects, lists, env)
         == objects[name := DeleteBulk(objects[name], [path], name in env.deleteFails, env.removed)]
  {
    forall b | b in objects && b != name ensures DeleteAll(objects, lists, env)[b] == objects[b] {}
  }

  lemma NothingListed(objects: map<string, set<string>>, lists: map<string, seq<string>>, env: Env)
    requires forall b :: b in lists ==> lists[b] == []
    ensures DeleteAll(objects, lists, env) == objects
  {
    assert Members([]) == {};
    forall b | b in objects ensures DeleteAll(objects, lists, env)[b] == objects[b] {}
  }

  class Callstore {
    const cfg: Config
    var objects: map<string, set<string>>
    var rows: set<Row>

    ghost function Abs(): State
      reads this
    {
      State(objects, rows)
    }

    constructor (cfg: Config, objects: map<string, set<string>>)
      ensures this.cfg == cfg && Abs() == State(objects, {})
    {
      this.cfg := cfg;
      this.objects := objects;
      this.rows := {};
    }

    /** Store: tries the backends in order. */
    method StoreAudio(path: string, env: Env) returns (stored: Stored)
      requires Known(cfg, Abs())
      modifies this`objects
      ensures (Abs(), stored) == StoreFrom(cfg, old(Abs()), path, env, 0)
    {
      for i := 0 to |cfg.backends|
        invariant Known(cfg, Abs()) && rows == old(rows)
        invariant StoreFrom(cfg, Abs(), path, env, i) == StoreFrom(cfg, old(Abs()), path, env, 0)
      {
        var be := cfg.backends[i];
        if be.name !in env.accepts {
          continue;
        }
        if be.name in env.storeFails {
          if be.name in env.dirty {
            objects := objects[be.name := objects[be.name] + {path}];
          }
          match be.onError
          case OnErrorFail => return Refused;
          case OnErrorDB => return InDatabase;
          case OnErrorNext => continue;
        }
        objects := objects[be.name := objects[be.name] + {path}];
        return InBackend(be.name);
      }
      stored := if cfg.onExhaust.OnErrorDB? then InDatabase else Refused;
    }

    /** The insert in its transaction, and once more after learning the talkgroup. */
    method InsertRow(row: Row, env: Env) returns (ok: bool)
      modifies this`rows
      ensures ok == Inserts(old(Abs()), row.call, env)
      ensures rows == if ok then old(rows) + {row} else old(rows)
    {
      if KeyTaken(State(objects, rows), row.call) {
        return false;
      }
      match env.insert
      case Commits =>
        rows := rows + {row};
        ok := true;
      case LearnFirst(learnFails, retryFails) =>
        ok := !learnFails && !retryFails;
        if ok {
          rows := rows + {row};
        }
      case Fails =>
        ok := false;
    }

    /** AddCall with a tracker from the pool, whatever an earlier call left in it. */
    method AddCall(call: Call, env: Env, rt: RefTracker) returns (ok: bool)
      requires Known(cfg, Abs()) && ValidCall(call)
      modifies this, rt
      ensures (Abs(), ok) == AddCallSpec(cfg, old(Abs()), call, env)
    {
      if env.denied {
        return false;
      }
      rt.Reset();
      var stored := StoreAudio(Path(cfg, call), env);
      if stored.Refused? {
        return false;
      }
      var audio := None;
      if stored.InBackend? {
        var ref := RefOf(cfg, call);
        RefLeadsBack(cfg.partman, call.id, call.name, call.date);
        rt.Created(stored.name, ref.Ref(cfg.partman, call.date));
        OnlyCreated(objects, rt.cre, env, stored.name, Path(cfg, call));
        audio := Some((stored.name, ref));
        if env.marshalFails {
          var rolled, _ := rt.Rollback(objects, env);
          objects := rolled;
          return false;
        }
      }
      ok := InsertRow(Row(call, audio), env);
      if ok {
        NothingListed(objects, rt.del, env);
        var left, _ := rt.Commit(objects, env);
        objects := left;
      } else {
        if stored.InDatabase? {
          NothingListed(objects, rt.cre, env);
        }
        var rolled, _ := rt.Rollback(objects, env);
        objects := rolled;
      }
    }
  }

  // ---- What a call leaves ------------------------------------------------------------------------------------

  /** Every backend before the i-th passes the call on: it does not accept it, or fails and says next. */
  predicate PassedOn(cfg: Config, env: Env, i: nat) {
    i <= |cfg.backends|
    && forall j :: 0 <= j < i && cfg.backends[j].name in env.accepts ==>
         cfg.backends[j].name in env.storeFails && cfg.backends[j].onError.OnErrorNext?
  }

  /** The i-th backend takes the call. */
  predicate Takes(cfg: Config, env: Env, i: nat) {
    i < |cfg.backends| && PassedOn(cfg, env, i)
    && cfg.backends[i].name in env.accepts && cfg.backends[i].name !in env.storeFails
  }

  /** The call is for the database: the first backend that does not pass it on fails and says so, or
      there is none, and the list's end says so. */
  predicate ForDatabase(cfg: Config, env: Env) {
    (PassedOn(cfg, env, |cfg.backends|) && cfg.onExhaust.OnErrorDB?)
    || exists i: nat :: i < |cfg.backends| && PassedOn(cfg, env, i) && cfg.backends[i].name in env.accepts
                        && cfg.backends[i].name in env.storeFails && cfg.backends[i].onError.OnErrorDB?
  }

  /** The backend of that name takes the call, from the i-th on. */
  predicate TakenBy(cfg: Config, env: Env, name: string, i: nat) {
    exists k: nat :: i <= k < |cfg.backends| && Takes(cfg, env, k) && cfg.backends[k].name == name
  }

  /** The backend of that name is tried, from the i-th on, fails, and keeps the call's object all the same. */
  predicate KeptBy(cfg: Config, env: Env, name: string, i: nat) {
    exists k: nat :: i <= k < |cfg.backends| && PassedOn(cfg, env, k) && cfg.backends[k].name == name
                     && name in env.accepts * env.storeFails * env.dirty
  }

  lemma {:induction false} StoreFromExactly(cfg: Config, s: State, path: string, env: Env, i: nat)
    requires Known(cfg, s) && PassedOn(cfg, env, i)
    ensures var (r, stored) := StoreFrom(cfg, s, path, env, i);
            (forall name :: stored == InBackend(name) <==> TakenBy(cfg, env, name, i))
            && (stored.InDatabase? <==> ForDatabase(cfg, env))
            && r.rows == s.rows && r.objects.Keys == s.objects.Keys
    decreases |cfg.backends| - i
  {
    if i < |cfg.backends| {
      var be := cfg.backends[i];
      var s1 := if be.name in env.accepts * env.storeFails * env.dirty then Put(s, be.name, path) else s;
      if PassedOn(cfg, env, i + 1) {
        StoreFromExactly(cfg, s1, path, env, i + 1);
      } else {
        assert forall k: nat :: k > i ==> !PassedOn(cfg, env, k);
      }
    }
  }

  lemma {:induction false} StoreFromObjects(cfg: Config, s: State, path: string, env: Env, i: nat, n: string, o: string)
    requires Known(cfg, s) && PassedOn(cfg, env, i)
    ensures var (r, stored) := StoreFrom(cfg, s, path, env, i);
            HasObject(r, n, o) <==>
              HasObject(s, n, o)
              || (o == path && (stored == InBackend(n) || KeptBy(cfg, env, n, i)))
    decreases |cfg.backends| - i
  {
    if i < |cfg.backends| {
      var be := cfg.backends[i];
      var s1 := if be.name in env.accepts * env.storeFails * env.dirty then Put(s, be.name, path) else s;
      if PassedOn(cfg, env, i + 1) {
        StoreFromObjects(cfg, s1, path, env, i + 1, n, o);
      } else {
        assert forall k: nat :: k > i ==> !PassedOn(cfg, env, k);
      }
    }
  }

  /** A call is reported stored exactly when it is authorized, some backend takes its audio, and its
      reference can be written down, or the audio is for the database, its key is free, and the insert
      commits, at once or after the talkgroup was learned. */
  ghost predicate Storable(cfg: Config, s: State, call: Call, env: Env) {
    !env.denied
    && (ForDatabase(cfg, env) || (!env.marshalFails && exists i: nat :: Takes(cfg, env, i)))
    && (forall row :: row in s.rows && row.call.id == call.id ==> row.call.date != call.date)
    && (env.insert.Commits? || env.insert == LearnFirst(false, false))
  }

  /** A row of the call: its audio is in it exactly when no backend took the call, and else is the object
      that it refers to. */
  ghost predicate RowOf(cfg: Config, s: State, call: Call, env: Env, row: Row)
    requires ValidCall(call)
  {
    row.call == call
    && (row.audio.None? <==> forall i: nat :: !Takes(cfg, env, i))
    && (forall i: nat :: Takes(cfg, env, i) ==>
          row.audio.value.0 == cfg.backends[i].name && HasObject(s, cfg.backends[i].name, Path(cfg, call))
          && row.audio.value.1.Ref(cfg.partman, call.date) == Path(cfg, call))
  }

  /** What adding a call leaves. Reported stored, it has exactly one new row, its own, with its audio in it
      exactly when no backend took it, and else with the reference to the object in the backend that did.
      Otherwise there is no new row. */
  lemma AddCallLeavesRow(cfg: Config, s: State, call: Call, env: Env)
    requires Known(cfg, s) && ValidCall(call)
    ensures var (r, ok) := AddCallSpec(cfg, s, call, env);
            (ok <==> Storable(cfg, s, call, env))
            && (!ok ==> r.rows == s.rows)
            && (ok ==> exists row :: row !in s.rows && r.rows == s.rows + {row} && RowOf(cfg, r, call, env, row))
  {
    hide BlobPath, MakeAudioRef, AudioRef.Ref, StoreFrom, IsUUID;
    var path := Path(cfg, call);
    var (s1, stored) := StoreFrom(cfg, s, path, env, 0);
    StoreFromExactly(cfg, s, path, env, 0);
    StoreFromKeeps(cfg, s, path, env, 0);
    OwnRef(cfg, call);
    var (r, ok) := AddCallSpec(cfg, s, call, env);
    forall i: nat | Takes(cfg, env, i) ensures stored == InBackend(cfg.backends[i].name) {
      assert TakenBy(cfg, env, cfg.backends[i].name, 0);
    }
    assert stored.InBackend? ==> TakenBy(cfg, env, stored.name, 0);
    if ok {
      var row := Row(call, if stored.InBackend? then Some((stored.name, RefOf(cfg, call))) else None);
      assert row !in s.rows && r.rows == s.rows + {row};
    }
  }

  /** The objects it leaves: the old ones; its own in a backend that failed and kept it; and its own in the
      backend that took it, unless the call failed after that and its removal reached the object. */
  lemma AddCallLeavesObjects(cfg: Config, s: State, call: Call, env: Env, n: string, o: string)
    requires Known(cfg, s) && ValidCall(call)
    ensures var (r, ok) := AddCallSpec(cfg, s, call, env);
            HasObject(r, n, o) <==>
              if env.denied || o != Path(cfg, call) then HasObject(s, n, o)
              else if TakenBy(cfg, env, n, 0) then ok || (n in env.deleteFails && o !in env.removed)
              else HasObject(s, n, o) || KeptBy(cfg, env, n, 0)
  {
    hide BlobPath, MakeAudioRef, AudioRef.Ref, StoreFrom, IsUUID;
    var path := Path(cfg, call);
    var (s1, stored) := StoreFrom(cfg, s, path, env, 0);
    StoreFromExactly(cfg, s, path, env, 0);
    StoreFromObjects(cfg, s, path, env, 0, n, o);
    assert Members([path]) == {path};
  }

  // ---- Every reference names an object ------------------------------------------------------------------------

  predicate Refers(cfg: Config, row: Row, name: string, path: string) {
    row.audio.Some? && row.audio.value.0 == name && row.audio.value.1.Ref(cfg.partman, row.call.date) == path
  }

  predicate Referenced(cfg: Config, s: State, name: string, path: string) {
    exists row :: row in s.rows && Refers(cfg, row, name, path)
  }

  predicate HasObject(s: State, name: string, path: string) {
    name in s.objects && path in s.objects[name]
  }

  /** Every reference in a committed row names an existing object. */
  ghost predicate NoDangling(cfg: Config, s: State) {
    forall row :: row in s.rows && row.audio.Some? ==>
      HasObject(s, row.audio.value.0, row.audio.value.1.Ref(cfg.partman, row.call.date))
  }

  /** Every object belongs to a committed row. */
  ghost predicate NoOrphan(cfg: Config, s: State) {
    forall name, path :: HasObject(s, name, path) ==> Referenced(cfg, s, name, path)
  }

  predicate Configured(cfg: Config, name: string) {
    exists i :: 0 <= i < |cfg.backends| && cfg.backends[i].name == name
  }

  /** Storing loses no object; what it adds is the call's own, in the backend that took it or in one that
      failed and kept it all the same. */
  lemma {:induction false} StoreFromKeeps(cfg: Config, s: State, path: string, env: Env, i: nat)
    requires Known(cfg, s) && i <= |cfg.backends|
    ensures var (r, stored) := StoreFrom(cfg, s, path, env, i);
            (forall n, p :: HasObject(s, n, p) ==> HasObject(r, n, p))
            && (stored.InBackend? ==> HasObject(r, stored.name, path))
            && (forall n, p :: HasObject(r, n, p) ==>
                  HasObject(s, n, p)
                  || (p == path && (stored == InBackend(n) || (n in env.dirty && Configured(cfg, n)))))
    decreases |cfg.backends| - i
  {
    if i < |cfg.backends| {
      var be := cfg.backends[i];
      var s1 := if be.name in env.dirty then Put(s, be.name, path) else s;
      StoreFromKeeps(cfg, s1, path, env, i + 1);
      StoreFromKeeps(cfg, s, path, env, i + 1);
    }
  }

  /** What a failing call takes back: its own object, which an earlier row may refer to. */
  predicate Clobbers(cfg: Config, s: State, call: Call, env: Env)
    requires Known(cfg, s) && ValidCall(call)
  {
    var (s1, stored) := StoreFrom(cfg, s, Path(cfg, call), env, 0);
    !env.denied && stored.InBackend?
    && (env.marshalFails || !Inserts(s1, call, env))
    && (stored.name !in env.deleteFails || Path(cfg, call) in env.removed)
    && Referenced(cfg, s, stored.name, Path(cfg, call))
  }

  /** One AddCall leaves every reference with its object exactly when it does not take back an object
      that a committed row refers to. */
  lemma AddCallNoDangling(cfg: Config, s: State, call: Call, env: Env)
    requires Known(cfg, s) && ValidCall(call) && NoDangling(cfg, s)
    ensures NoDangling(cfg, AddCallSpec(cfg, s, call, env).0) <==> !Clobbers(cfg, s, call, env)
  {
    hide BlobPath, MakeAudioRef, AudioRef.Ref, StoreFrom, IsUUID;
    var path := Path(cfg, call);
    var (s1, stored) := StoreFrom(cfg, s, path, env, 0);
    StoreFromKeeps(cfg, s, path, env, 0);
    OwnRef(cfg, call);
    var r := AddCallSpec(cfg, s, call, env).0;
    if Clobbers(cfg, s, call, env) {
      var row :| row in s.rows && Refers(cfg, row, stored.name, path);
      assert row in r.rows && path in Members([path]);
      assert !HasObject(r, stored.name, path);
    } else {
      forall row | row in r.rows && row.audio.Some?
        ensures HasObject(r, row.audio.value.0, row.audio.value.1.Ref(cfg.partman, row.call.date))
      {
        if row in s.rows {
          var p := row.audio.value.1.Ref(cfg.partman, row.call.date);
          assert HasObject(s, row.audio.value.0, p) && HasObject(s1, row.audio.value.0, p);
          assert Refers(cfg, row, row.audio.value.0, p);
        }
      }
    }
  }

  /** Whatever the environment does, adding a call leaves every reference with its object exactly when no
      configured backend holds the call's object path for a committed row. */
  lemma AddCallAlwaysSafe(cfg: Config, s: State, call: Call)
    requires Known(cfg, s) && ValidCall(call) && NoDangling(cfg, s)
    ensures (forall env: Env :: NoDangling(cfg, AddCallSpec(cfg, s, call, env).0))
       <==> forall i :: 0 <= i < |cfg.backends| ==> !Referenced(cfg, s, cfg.backends[i].name, Path(cfg, call))
  {
    hide BlobPath, MakeAudioRef, AudioRef.Ref, StoreFrom, IsUUID, NoDangling, AddCallSpec, Referenced;
    var path := Path(cfg, call);
    if forall i :: 0 <= i < |cfg.backends| ==> !Referenced(cfg, s, cfg.backends[i].name, path) {
      forall env: Env ensures NoDangling(cfg, AddCallSpec(cfg, s, call, env).0) {
        StoredIsConfigured(cfg, s, path, env, 0);
        AddCallNoDangling(cfg, s, call, env);
      }
    } else {
      var i :| 0 <= i < |cfg.backends| && Referenced(cfg, s, cfg.backends[i].name, path);
      var name := cfg.backends[i].name;
      var env := Env(false, {name}, {}, {}, false, Fails, {}, {});
      OnlyAccepting(cfg, s, path, env, 0, name);
      AddCallNoDangling(cfg, s, call, env);
      assert !NoDangling(cfg, AddCallSpec(cfg, s, call, env).0);
    }
  }

  lemma {:induction false} StoredIsConfigured(cfg: Config, s: State, path: string, env: Env, i: nat)
    requires Known(cfg, s) && i <= |cfg.backends|
    ensures var stored := StoreFrom(cfg, s, path, env, i).1;
            stored.InBackend? ==> exists j :: 0 <= j < |cfg.backends| && cfg.backends[j].name == stored.name
    decreases |cfg.backends| - i
  {
    if i < |cfg.backends| {
      var be := cfg.backends[i];
      var s1 := if be.name in env.dirty then Put(s, be.name, path) else s;
      StoredIsConfigured(cfg, s1, path, env, i + 1);
      StoredIsConfigured(cfg, s, path, env, i + 1);
    }
  }

  /** The only backend that accepts a call, and does not fail, takes it. */
  lemma {:induction false} OnlyAccepting(cfg: Config, s: State, path: string, env: Env, i: nat, name: string)
    requires Known(cfg, s) && i <= |cfg.backends| && env.accepts == {name} && name !in env.storeFails
    requires exists j :: i <= j < |cfg.backends| && cfg.backends[j].name == name
    ensures StoreFrom(cfg, s, path, env, i).1 == InBackend(name)
    decreases |cfg.backends| - i
  {
    if cfg.backends[i].name != name {
      OnlyAccepting(cfg, s, path, env, i + 1, name);
    }
  }

  /** A call's reference leads back to its object. */
  lemma OwnRef(cfg: Config, call: Call)
    requires ValidCall(call)
    ensures RefOf(cfg, call).Ref(cfg.partman, call.date) == Path(cfg, call)
  {
    RefLeadsBack(cfg.partman, call.id, call.name, call.date);
  }

  /** The failures of an environment that can leave an object behind, a store that failed halfway and a
      failed delete, hit only backends where a row refers to the call's object path. */
  predicate Harmless(cfg: Config, s: State, call: Call, failing: set<string>)
    requires ValidCall(call)
  {
    forall i :: 0 <= i < |cfg.backends| && cfg.backends[i].name in failing ==>
      Referenced(cfg, s, cfg.backends[i].name, Path(cfg, call))
  }

  lemma AddCallNoOrphan(cfg: Config, s: State, call: Call, env: Env)
    requires Known(cfg, s) && ValidCall(call) && NoOrphan(cfg, s)
    requires Harmless(cfg, s, call, env.dirty + env.deleteFails)
    ensures NoOrphan(cfg, AddCallSpec(cfg, s, call, env).0)
  {
    hide BlobPath, MakeAudioRef, AudioRef.Ref, StoreFrom, IsUUID;
    var path := Path(cfg, call);
    var (s1, stored) := StoreFrom(cfg, s, path, env, 0);
    StoreFromKeeps(cfg, s, path, env, 0);
    StoredIsConfigured(cfg, s, path, env, 0);
    OwnRef(cfg, call);
    var r := AddCallSpec(cfg, s, call, env).0;
    forall n, p | HasObject(r, n, p) ensures Referenced(cfg, r, n, p) {
      if Referenced(cfg, s, n, p) {
        var row :| row in s.rows && Refers(cfg, row, n, p);
        assert row in r.rows;
      } else {
        assert stored == InBackend(n) && p == path && n !in env.deleteFails;
        assert path in Members([path]);
        var row := Row(call, Some((n, RefOf(cfg, call))));
        assert row in r.rows && Refers(cfg, row, n, p);
      }
    }
  }

  /** Whatever else the environment does, adding a call leaves no object without a row exactly when every
      configured backend whose failed stores may leave an object, or whose deletes may fail, holds the
      call's object path for a committed row. */
  lemma AddCallNeverOrphans(cfg: Config, s: State, call: Call, dirty: set<string>, fails: set<string>)
    requires Known(cfg, s) && ValidCall(call) && NoOrphan(cfg, s)
    ensures (forall env: Env :: env.dirty <= dirty && env.deleteFails <= fails ==>
               NoOrphan(cfg, AddCallSpec(cfg, s, call, env).0))
       <==> Harmless(cfg, s, call, dirty + fails)
  {
    hide BlobPath, MakeAudioRef, AudioRef.Ref, StoreFrom, IsUUID, NoOrphan, AddCallSpec, Referenced;
    if Harmless(cfg, s, call, dirty + fails) {
      forall env: Env | env.dirty <= dirty && env.deleteFails <= fails
        ensures NoOrphan(cfg, AddCallSpec(cfg, s, call, env).0)
      {
        AddCallNoOrphan(cfg, s, call, env);
      }
    } else {
      var i :| 0 <= i < |cfg.backends| && cfg.backends[i].name in dirty + fails
               && !Referenced(cfg, s, cfg.backends[i].name, Path(cfg, call));
      var env := LeftBehind(cfg, s, call, dirty, cfg.backends[i].name);
      assert !NoOrphan(cfg, AddCallSpec(cfg, s, call, env).0);
    }
  }

  /** A failed store of the only accepting backend, or a failed rollback there, leaves the call's object
      behind. */
  lemma LeftBehind(cfg: Config, s: State, call: Call, dirty: set<string>, name: string) returns (env: Env)
    requires Known(cfg, s) && ValidCall(call) && Configured(cfg, name)
    requires !Referenced(cfg, s, name, Path(cfg, call))
    ensures env.dirty <= dirty && env.deleteFails <= {name} && (name in dirty ==> env.deleteFails == {})
    ensures !NoOrphan(cfg, AddCallSpec(cfg, s, call, env).0)
  {
    hide BlobPath, MakeAudioRef, AudioRef.Ref, StoreFrom, IsUUID;
    var path := Path(cfg, call);
    if name in dirty {
      env := Env(false, {name}, {name}, {name}, false, Fails, {}, {});
      OnlyFailing(cfg, s, path, env, 0, name);
    } else {
      env := Env(false, {name}, {}, {}, false, Fails, {name}, {});
      OnlyAccepting(cfg, s, path, env, 0, name);
      StoreFromKeeps(cfg, s, path, env, 0);
    }
    var r := AddCallSpec(cfg, s, call, env).0;
    assert HasObject(r, name, path) && r.rows == s.rows;
    assert !Referenced(cfg, r, name, path);
  }

  /** The only backend that accepts a call, and fails halfway, keeps the object. */
  lemma {:induction false} OnlyFailing(cfg: Config, s: State, path: string, env: Env, i: nat, name: string)
    requires Known(cfg, s) && i <= |cfg.backends| && env.accepts == {name} && name in env.storeFails * env.dirty
    requires HasObject(s, name, path) || exists j :: i <= j < |cfg.backends| && cfg.backends[j].name == name
    ensures HasObject(StoreFrom(cfg, s, path, env, i).0, name, path) && !StoreFrom(cfg, s, path, env, i).1.InBackend?
    decreases |cfg.backends| - i
  {
    if i < |cfg.backends| {
      OnlyFailing(cfg, if cfg.backends[i].name == name then Put(s, name, path) else s, path, env, i + 1, name);
    }
  }

  /** Adding a stored call a second time loses its audio: the insert is refused for the key, and the
      rollback deletes the object the first row refers to. */
  lemma AddingTwiceLosesAudio(cfg: Config, s: State, call: Call, env: Env)
    requires Known(cfg, s) && ValidCall(call) && NoDangling(cfg, s) && !env.denied
    requires var stored := StoreFrom(cfg, s, Path(cfg, call), env, 0).1;
             stored.InBackend? && stored.name !in env.deleteFails
             && Row(call, Some((stored.name, RefOf(cfg, call)))) in s.rows
    ensures !AddCallSpec(cfg, s, call, env).1 && !NoDangling(cfg, AddCallSpec(cfg, s, call, env).0)
  {
    hide BlobPath, MakeAudioRef, AudioRef.Ref, StoreFrom, IsUUID;
    OwnRef(cfg, call);
    var (s1, stored) := StoreFrom(cfg, s, Path(cfg, call), env, 0);
    var row := Row(call, Some((stored.name, RefOf(cfg, call))));
    assert row in s1.rows && Refers(cfg, row, stored.name, Path(cfg, call));
    AddCallNoDangling(cfg, s, call, env);
  }

  // ---- Runs ------------------------------------------------------------------------------------------------------

  function Run(cfg: Config, s: State, calls: seq<(Call, Env)>): (r: State)
    requires Known(cfg, s) && forall i :: 0 <= i < |calls| ==> ValidCall(calls[i].0)
    ensures Known(cfg, r)
  {
    if calls == [] then s
    else AddCallSpec(cfg, Run(cfg, s, calls[..|calls| - 1]), calls[|calls| - 1].0, calls[|calls| - 1].1).0
  }

  /** Rows hold calls with their own references. */
  ghost predicate OwnRows(cfg: Config, s: State) {
    forall row :: row in s.rows ==>
      ValidCall(row.call) && (row.audio.Some? ==> row.audio.value.1 == RefOf(cfg, row.call))
  }

  /** The IDs of all rows are among the calls added. */
  ghost predicate RowsFrom(s: State, calls: seq<(Call, Env)>) {
    forall row :: row in s.rows ==> exists i :: 0 <= i < |calls| && calls[i].0.id == row.call.id
  }

  /** Over every run of calls with distinct IDs, sharing trackers, every committed reference names an
      existing object. */
  lemma {:induction false} RunKeepsAudio(cfg: Config, s: State, calls: seq<(Call, Env)>)
    requires Known(cfg, s) && s.rows == {} && (forall name :: name in s.objects ==> s.objects[name] == {})
    requires forall i :: 0 <= i < |calls| ==> ValidCall(calls[i].0)
    requires forall i, j :: 0 <= i < j < |calls| ==> calls[i].0.id != calls[j].0.id
    ensures var r := Run(cfg, s, calls); NoDangling(cfg, r) && OwnRows(cfg, r) && RowsFrom(r, calls)
  {
    if calls != [] {
      hide BlobPath, MakeAudioRef, AudioRef.Ref, Path, RefOf, StoreFrom, IsUUID, Free, NoDangling;
      var n := |calls| - 1;
      var init, call, env := calls[..n], calls[n].0, calls[n].1;
      RunKeepsAudio(cfg, s, init);
      var t := Run(cfg, s, init);
      NotClobbered(cfg, t, init, call, env);
      AddCallNoDangling(cfg, t, call, env);
      AddCallRows(cfg, t, call, env);
      var r := AddCallSpec(cfg, t, call, env).0;
      forall row | row in r.rows ensures exists i :: 0 <= i < |calls| && calls[i].0.id == row.call.id {
        if row in t.rows {
          var i :| 0 <= i < |init| && init[i].0.id == row.call.id;
          assert calls[i] == init[i];
        } else {
          assert calls[n].0.id == row.call.id;
        }
      }
    }
  }

  /** A run of the given calls in which only the given backends keep what they failed to store, or fail
      to delete. */
  predicate RunOf(cs: seq<Call>, calls: seq<(Call, Env)>, dirty: set<string>, fails: set<string>) {
    |calls| == |cs|
    && forall i :: 0 <= i < |calls| ==>
         calls[i].0 == cs[i] && calls[i].1.dirty <= dirty && calls[i].1.deleteFails <= fails
  }

  /** No run of some calls, whatever else fails in it, leaves an object without a row, exactly when no
      configured backend can keep what it failed to store or fail to delete. */
  lemma RunsNeverOrphan(cfg: Config, s: State, cs: seq<Call>, dirty: set<string>, fails: set<string>)
    requires Known(cfg, s) && s.rows == {} && (forall name :: name in s.objects ==> s.objects[name] == {})
    requires forall i :: 0 <= i < |cs| ==> ValidCall(cs[i])
    ensures (forall calls :: RunOf(cs, calls, dirty, fails) ==> NoOrphan(cfg, Run(cfg, s, calls)))
       <==> cs == [] || forall i :: 0 <= i < |cfg.backends| ==> cfg.backends[i].name !in dirty + fails
  {
    hide Path, AddCallSpec, IsUUID, NoOrphan;
    if cs == [] || forall i :: 0 <= i < |cfg.backends| ==> cfg.backends[i].name !in dirty + fails {
      forall calls | RunOf(cs, calls, dirty, fails) ensures NoOrphan(cfg, Run(cfg, s, calls)) {
        RunNoOrphan(cfg, s, cs, calls, dirty, fails);
      }
    } else {
      var i :| 0 <= i < |cfg.backends| && cfg.backends[i].name in dirty + fails;
      var calls := DeniedButLast(cfg, s, cs, dirty, fails, cfg.backends[i].name);
      assert !NoOrphan(cfg, Run(cfg, s, calls));
    }
  }

  lemma {:induction false} RunNoOrphan(cfg: Config, s: State, cs: seq<Call>, calls: seq<(Call, Env)>,
                                       dirty: set<string>, fails: set<string>)
    requires Known(cfg, s) && s.rows == {} && (forall name :: name in s.objects ==> s.objects[name] == {})
    requires (forall i :: 0 <= i < |cs| ==> ValidCall(cs[i])) && RunOf(cs, calls, dirty, fails)
    requires cs == [] || forall i :: 0 <= i < |cfg.backends| ==> cfg.backends[i].name !in dirty + fails
    ensures NoOrphan(cfg, Run(cfg, s, calls))
  {
    hide Path, AddCallSpec, IsUUID;
    if calls != [] {
      var n := |calls| - 1;
      RunNoOrphan(cfg, s, cs[..n], calls[..n], dirty, fails);
      AddCallNoOrphan(cfg, Run(cfg, s, calls[..n]), calls[n].0, calls[n].1);
    }
  }

  /** After denied calls alone, the last call can leave its object behind. */
  lemma DeniedButLast(cfg: Config, s: State, cs: seq<Call>, dirty: set<string>, fails: set<string>, name: string)
    returns (calls: seq<(Call, Env)>)
    requires Known(cfg, s) && s.rows == {} && cs != [] && (forall i :: 0 <= i < |cs| ==> ValidCall(cs[i]))
    requires Configured(cfg, name) && name in dirty + fails
    ensures RunOf(cs, calls, dirty, fails) && !NoOrphan(cfg, Run(cfg, s, calls))
  {
    hide Path, AddCallSpec, IsUUID, NoOrphan;
    var n := |cs| - 1;
    var env := LeftBehind(cfg, s, cs[n], dirty, name);
    var denied := seq(n, i requires 0 <= i < n => (cs[i], Env(true, {}, {}, {}, false, Fails, {}, {})));
    DeniedRun(cfg, s, denied);
    calls := denied + [(cs[n], env)];
    assert calls[..n] == denied;
  }

  lemma {:induction false} DeniedRun(cfg: Config, s: State, calls: seq<(Call, Env)>)
    requires Known(cfg, s) && forall i :: 0 <= i < |calls| ==> ValidCall(calls[i].0) && calls[i].1.denied
    ensures Run(cfg, s, calls) == s
  {
    hide Path, IsUUID;
    if calls != [] {
      DeniedRun(cfg, s, calls[..|calls| - 1]);
    }
  }

  lemma AddCallRows(cfg: Config, s: State, call: Call, env: Env)
    requires Known(cfg, s) && ValidCall(call)
    ensures forall row :: row in AddCallSpec(cfg, s, call, env).0.rows ==>
      row in s.rows || (row.call == call && (row.audio.Some? ==> row.audio.value.1 == RefOf(cfg, call)))
  {
    hide BlobPath, MakeAudioRef, StoreFrom, IsUUID;
  }

  lemma NotClobbered(cfg: Config, s: State, calls: seq<(Call, Env)>, call: Call, env: Env)
    requires Known(cfg, s) && OwnRows(cfg, s) && RowsFrom(s, calls) && ValidCall(call)
    requires forall i :: 0 <= i < |calls| ==> calls[i].0.id != call.id
    ensures !Clobbers(cfg, s, call, env)
  {
    hide BlobPath, MakeAudioRef, AudioRef.Ref, StoreFrom, IsUUID, Free;
    forall row, name | row in s.rows ensures !Refers(cfg, row, name, Path(cfg, call)) {
      var i :| 0 <= i < |calls| && calls[i].0.id == row.call.id;
      OwnRef(cfg, row.call);
      PathsDiffer(cfg.partman, row.call.id, row.call.name, row.call.date, call.id, call.name, call.date);
    }
  }
}
