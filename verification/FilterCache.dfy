/**
 The talkgroup cache with its registry of filters (pkg/talkgroups/tgstore/store.go) and the compiled
 filters themselves (pkg/calls/filter/filter.go): after a write of talkgroups, every registered
 filter that refers to an affected tag is compiled again.
 */
module FilterCache {
  import opened GoStrings
  import opened TagFilters
  import opened TagWrites

  lemma OneMoreID(ids: seq<ID>, i: nat)
    requires i < |ids|
    ensures IDs(ids[..i + 1]) == IDs(ids[..i]) + {ids[i]}
  {}

  lemma NothingMarked()
    ensures IDs([]) == {} && Marked({}, {}) == map[]
  {}

  lemma NothingSelected(f: Spec, db: Tags)
    requires !f.HasTags()
    ensures Selected(f, db) == {}
  {}

  class Filter {
    const spec: Spec
    var compiled: Option<map<ID, bool>>

    constructor (spec: Spec)
      ensures this.spec == spec && compiled.None?
    {
      this.spec := spec;
      compiled := None;
    }

    /** Rebuilds the map; a failing query leaves it with the listed talkgroups only. */
    method Compile(db: Tags, fails: bool) returns (ok: bool)
      modifies this
      ensures compiled == AfterCompile(spec, old(compiled), db, fails)
      ensures ok <==> spec.all || !spec.HasTags() || !fails
    {
      hide Marked, IDs, Selected, Spec.HasTags;
      if spec.all {
        return true;
      }
      var m := map[];
      NothingMarked();
      for i := 0 to |spec.talkgroups|
        invariant m == Marked(IDs(spec.talkgroups[..i]), {})
      {
        OneMoreID(spec.talkgroups, i);
        MarkedOneMore(IDs(spec.talkgroups[..i]), {}, spec.talkgroups[i], true);
        m := m[spec.talkgroups[i] := true];
      }
      assert spec.talkgroups[..|spec.talkgroups|] == spec.talkgroups;
      compiled := Some(m);
      ghost var ids := IDs(spec.talkgroups);
      if spec.HasTags() {
        if fails {
          return false;
        }
        var todo := Selected(spec, db);
        assert ids + (Selected(spec, db) - todo) == ids;
        while todo != {}
          invariant todo <= Selected(spec, db)
          invariant m == Marked(ids + (Selected(spec, db) - todo), {})
          decreases |todo|
        {
          var id :| id in todo;
          MarkedOneMore(ids + (Selected(spec, db) - todo), {}, id, true);
          assert ids + (Selected(spec, db) - todo) + {id} == ids + (Selected(spec, db) - (todo - {id}));
          m := m[id := true];
          todo := todo - {id};
        }
        assert ids + (Selected(spec, db) - todo) == ids + Selected(spec, db);
      } else {
        NothingSelected(spec, db);
        assert ids + {} == ids;
      }
      ids := ids + Selected(spec, db);
      assert spec.talkgroupsNot[..0] == [] && ids + {} == ids;
      for i := 0 to |spec.talkgroupsNot|
        invariant m == Marked(ids + IDs(spec.talkgroupsNot[..i]), IDs(spec.talkgroupsNot[..i]))
      {
        OneMoreID(spec.talkgroupsNot, i);
        MarkedOneMore(ids + IDs(spec.talkgroupsNot[..i]), IDs(spec.talkgroupsNot[..i]), spec.talkgroupsNot[i], false);
        assert ids + IDs(spec.talkgroupsNot[..i]) + {spec.talkgroupsNot[i]} == ids + IDs(spec.talkgroupsNot[..i + 1]);
        m := m[spec.talkgroupsNot[i] := false];
      }
      assert spec.talkgroupsNot[..|spec.talkgroupsNot|] == spec.talkgroupsNot;
      compiled := Some(m);
      ok := true;
    }

    /** Test compiles on first use, and panics, without an answer, when that fails. */
    method Test(db: Tags, fails: bool, system: int, talkgroup: int, patches: seq<int>) returns (r: Option<bool>)
      modifies this
      ensures compiled == if old(compiled).None? then AfterCompile(spec, None, db, fails) else old(compiled)
      ensures r.None? <==> !spec.all && old(compiled).None? && spec.HasTags() && fails
      ensures r.Some? && spec.all ==> r.value
      ensures r.Some? && !spec.all ==>
        compiled.Some? && r.value == Verdict(compiled.value, system, [talkgroup] + patches)
      ensures r.Some? && !spec.all ==>
        (r.value <==> var tgs := [talkgroup] + patches;
           exists i :: 0 <= i < |tgs| && ID(system, tgs[i]) in compiled.value && compiled.value[ID(system, tgs[i])]
                       && forall j :: 0 <= j < i ==> ID(system, tgs[j]) !in compiled.value)
      ensures r.Some? && old(IsCurrent(spec, compiled, db)) ==>
        r.value == Passes(spec, db, system, [talkgroup] + patches)
    {
      if spec.all {
        return Some(true);
      }
      if compiled.None? {
        var ok := Compile(db, fails);
        if !ok {
          return None;
        }
      }
      var known, tgs := compiled.value, [talkgroup] + patches;
      VerdictExactly(known, system, tgs);
      assert tgs[0..] == tgs;
      if ID(system, talkgroup) in known {
        return Some(known[ID(system, talkgroup)]);
      }
      assert tgs[1..] == patches[0..];
      for i := 0 to |patches|
        invariant Verdict(known, system, tgs) == Verdict(known, system, patches[i..])
      {
        if ID(system, patches[i]) in known {
          return Some(known[ID(system, patches[i])]);
        }
      }
      r := Some(false);
    }
  }

  // ---- The registry: tags to sets of filters ------------------------------------------------------------

  type Registry = map<string, set<Filter>>

  predicate Under(reg: Registry, tag: string, f: Filter) {
    tag in reg && f in reg[tag]
  }

  ghost function RegisteredIn(reg: Registry): set<Filter> {
    set tag, f | tag in reg && f in reg[tag] :: f
  }

  /** Every registered filter is found under the tags it refers to, and no others. */
  ghost predicate Indexed(reg: Registry) {
    forall f :: f in RegisteredIn(reg) ==> forall tag :: Under(reg, tag, f) <==> tag in f.spec.TagRefs()
  }

  function Registering(reg: Registry, f: Filter, tags: seq<string>): Registry {
    map tag | tag in reg.Keys + Members(tags) ::
      (if tag in reg then reg[tag] else {}) + if tag in tags then {f} else {}
  }

  lemma RegisteringOneMore(reg: Registry, f: Filter, tags: seq<string>, tag: string)
    ensures var r := Registering(reg, f, tags);
            r[tag := (if tag in r then r[tag] else {}) + {f}] == Registering(reg, f, tags + [tag])
  {
    assert Members(tags + [tag]) == Members(tags) + {tag};
    var r := Registering(reg, f, tags);
    var r1, r2 := r[tag := (if tag in r then r[tag] else {}) + {f}], Registering(reg, f, tags + [tag]);
    assert r1.Keys == r2.Keys;
    forall t | t in r2 ensures r1[t] == r2[t] {}
  }

  lemma RegisteringNothing(reg: Registry, f: Filter)
    ensures Registering(reg, f, []) == reg
  {
    var r := Registering(reg, f, []);
    assert forall tag :: tag in reg ==> r[tag] == reg[tag];
  }

  function Unregistering(reg: Registry, f: Filter, tags: set<string>): Registry {
    map tag | tag in reg :: if tag in tags then reg[tag] - {f} else reg[tag]
  }

  lemma UnregisteringNothing(reg: Registry, f: Filter)
    ensures Unregistering(reg, f, {}) == reg
  {}

  lemma UnregisteringOneMore(reg: Registry, f: Filter, tags: set<string>, tag: string)
    requires tag in reg && tag !in tags
    ensures var r := Unregistering(reg, f, tags);
            tag in r && r[tag := r[tag] - {f}] == Unregistering(reg, f, tags + {tag})
  {}

  /** A filter is registered when it refers to any tag, and the index stays right. */
  lemma RegisteringIndexes(reg: Registry, f: Filter)
    requires Indexed(reg)
    ensures var reg2 := Registering(reg, f, f.spec.TagRefs());
            Indexed(reg2) && RegisteredIn(reg2) == RegisteredIn(reg) + if f.spec.HasTags() then {f} else {}
  {
    var tags := f.spec.TagRefs();
    var reg2 := Registering(reg, f, tags);
    forall tag, g | g == f || g in RegisteredIn(reg)
      ensures Under(reg2, tag, g) <==> Under(reg, tag, g) || (g == f && tag in tags)
    {}
    forall g | g in RegisteredIn(reg2) ensures g in RegisteredIn(reg) || (g == f && tags != []) {
      var tag :| tag in reg2 && g in reg2[tag];
      assert Under(reg2, tag, g) && (Under(reg, tag, g) || (g == f && tag in tags));
    }
    forall g | g in RegisteredIn(reg) ensures g in RegisteredIn(reg2) {
      var tag :| tag in reg && g in reg[tag];
      assert Under(reg, tag, g) && Under(reg2, tag, g);
    }
    assert tags != [] ==> Under(reg2, tags[0], f);
    forall g | g in RegisteredIn(reg2) ensures forall tag :: Under(reg2, tag, g) <==> tag in g.spec.TagRefs() {
      if g == f && f !in RegisteredIn(reg) {
        assert forall tag :: !Under(reg, tag, f);
      }
    }
  }

  /** The filter is gone, the others stay, and the index stays right. */
  lemma UnregisteringIndexes(reg: Registry, f: Filter)
    requires Indexed(reg)
    ensures var reg2 := Unregistering(reg, f, reg.Keys);
            Indexed(reg2) && RegisteredIn(reg2) == RegisteredIn(reg) - {f}
  {
    var reg2 := Unregistering(reg, f, reg.Keys);
    forall tag, g | g in RegisteredIn(reg) ensures Under(reg2, tag, g) <==> Under(reg, tag, g) && g != f {}
    forall g | g in RegisteredIn(reg2) ensures g in RegisteredIn(reg) && g != f {
      var tag :| tag in reg2 && g in reg2[tag];
      assert Under(reg2, tag, g) && Under(reg, tag, g);
    }
    forall g | g in RegisteredIn(reg) && g != f ensures g in RegisteredIn(reg2) {
      var tag :| tag in reg && g in reg[tag];
      assert Under(reg, tag, g) && Under(reg2, tag, g);
    }
  }

  // ---- Recompiling ----------------------------------------------------------------------------------------

  /** Where a pass of recompiles can leave a filter: compiled afresh, or, when the pass failed, not
      reached or half compiled. */
  predicate Attempted(f: Spec, was: Option<map<ID, bool>>, now: Option<map<ID, bool>>, db: Tags, ok: bool) {
    now == AfterCompile(f, was, db, false) || (!ok && (now == was || now == AfterCompile(f, was, db, true)))
  }

  /** The filters whose compile asks the database. */
  function Asking(fs: set<Filter>): set<Filter> {
    set f | f in fs && !f.spec.all && f.spec.HasTags()
  }

  /** How many queries it takes to compile the filters of each tag in turn. */
  function Queries(reg: Registry, tags: seq<string>): nat {
    if tags == [] then 0
    else
      var tag := tags[|tags| - 1];
      Queries(reg, tags[..|tags| - 1]) + if tag in reg then |Asking(reg[tag])| else 0
  }

  lemma {:induction false} QueriesGrow(reg: Registry, tags: seq<string>, i: nat)
    requires i <= |tags|
    ensures Queries(reg, tags[..i]) <= Queries(reg, tags)
    decreases |tags| - i
  {
    if i == |tags| {
      assert tags[..i] == tags;
    } else {
      assert tags[..i + 1][..i] == tags[..i];
      QueriesGrow(reg, tags, i + 1);
    }
  }

  lemma AskingLess(fs: set<Filter>, f: Filter)
    requires f in fs
    ensures |Asking(fs)| == |Asking(fs - {f})| + if f.spec.all || !f.spec.HasTags() then 0 else 1
  {
    hide Spec.HasTags;
    if f in Asking(fs) {
      assert Asking(fs) == Asking(fs - {f}) + {f};
    } else {
      assert Asking(fs) == Asking(fs - {f});
    }
  }

  /** Compiles each filter of a set, in any order, until the query after the given number fails. */
  method CompileAll(fs: set<Filter>, db: Tags, queries: nat) returns (ok: bool, left: nat)
    modifies fs
    ensures ok <==> |Asking(fs)| <= queries
    ensures ok ==> left == queries - |Asking(fs)|
    ensures forall f :: f in fs ==> Attempted(f.spec, old(f.compiled), f.compiled, db, ok)
  {
    left := queries;
    var todo := fs;
    while todo != {}
      invariant todo <= fs
      invariant forall f :: f in todo ==> f.compiled == old(f.compiled)
      invariant forall f :: f in fs - todo ==> f.compiled == AfterCompile(f.spec, old(f.compiled), db, false)
      invariant |Asking(todo)| + queries == |Asking(fs)| + left
      decreases |todo|
    {
      var f :| f in todo;
      AskingLess(todo, f);
      todo := todo - {f};
      ok := f.Compile(db, left == 0);
      if !ok {
        return;
      }
      left := if f.spec.all || !f.spec.HasTags() then left else left - 1;
    }
    ok := true;
  }

  /** The filter was never compiled, or holds what a compile would make of it now. */
  predicate IsCurrent(f: Spec, compiled: Option<map<ID, bool>>, db: Tags) {
    f.all || compiled.None? || compiled == Some(Fresh(f, db))
  }

  /** A current filter is current again after the recompiles of a write that reports every tag it lost,
      if it is compliant or the write adds no talkgroup. */
  lemma StaysCurrent(f: Spec, was: Option<map<ID, bool>>, now: Option<map<ID, bool>>, db: Tags, db2: Tags,
                     affected: set<string>)
    requires IsCurrent(f, was, db) && (f.Compliant() || db.Keys == db2.Keys)
    requires Writes(db, db2, affected) && LosesOnly(db, db2, affected)
    requires if Members(f.TagRefs()) !! affected then now == was else now == AfterCompile(f, was, db2, false)
    ensures IsCurrent(f, now, db2)
  {
    hide Fresh, Writes, LosesOnly, Spec.TagRefs, Spec.HasTags;
    if Members(f.TagRefs()) !! affected {
      SameFresh(f, db, db2, affected);
    }
  }

  lemma Completed(f: Spec, was: Option<map<ID, bool>>, now: Option<map<ID, bool>>, db: Tags)
    ensures Attempted(f, was, now, db, true) <==> now == AfterCompile(f, was, db, false)
  {}

  datatype Error = ErrBadTG | ErrDenied | ErrNoSuchSystem | ErrDB

  // The faults one call meets: a refused user, failing lookups and writes, and how many queries of the
  // recompiles succeed before one fails.
  datatype Faults = Faults(denied: bool, lookupFails: bool, writeFails: bool, queries: nat)

  class Cache {
    var db: Tags
    var tgs: Tags
    var systems: set<int>
    var filters: map<string, set<Filter>>

    ghost function Registered(): set<Filter>
      reads this
    {
      RegisteredIn(filters)
    }

    /** Every registered filter is current. */
    ghost predicate Coherent()
      reads this, Registered()
    {
      forall f :: f in Registered() ==> IsCurrent(f.spec, f.compiled, db)
    }

    ghost predicate Compliant()
      reads this
    {
      forall f :: f in Registered() ==> f.spec.Compliant()
    }

    constructor (db: Tags, systems: set<int>)
      ensures this.db == db && this.systems == systems && tgs == map[] && filters == map[]
    {
      this.db := db;
      this.systems := systems;
      tgs := map[];
      filters := map[];
    }

    method RegisterFilter(f: Filter)
      modifies this`filters
      ensures filters == Registering(old(filters), f, f.spec.TagRefs())
      ensures old(Indexed(filters)) ==>
        Indexed(filters) && Registered() == old(Registered()) + (if f.spec.HasTags() then {f} else {})
        && (old(Coherent()) && IsCurrent(f.spec, f.compiled, db) ==> Coherent())
    {
      hide Registering, Spec.TagRefs, Spec.HasTags, Indexed, IsCurrent;
      var tags := f.spec.TagRefs();
      RegisteringNothing(filters, f);
      for i := 0 to |tags|
        invariant filters == Registering(old(filters), f, tags[..i])
      {
        RegisteringOneMore(old(filters), f, tags[..i], tags[i]);
        assert tags[..i + 1] == tags[..i] + [tags[i]];
        if tags[i] !in filters {
          filters := filters[tags[i] := {}];
        }
        filters := filters[tags[i] := filters[tags[i]] + {f}];
      }
      assert tags[..|tags|] == tags;
      if old(Indexed(filters)) {
        RegisteringIndexes(old(filters), f);
        if old(Coherent()) && IsCurrent(f.spec, f.compiled, db) {
          forall g | g in Registered() ensures IsCurrent(g.spec, g.compiled, db) {
            assert g in old(Registered()) || g == f;
          }
        }
      }
    }

    method UnregisterFilter(f: Filter)
      modifies this`filters
      ensures filters == Unregistering(old(filters), f, old(filters).Keys)
      ensures old(Indexed(filters)) ==>
        Indexed(filters) && Registered() == old(Registered()) - {f} && (old(Coherent()) ==> Coherent())
    {
      hide Unregistering, Indexed, IsCurrent;
      var todo := filters.Keys;
      assert filters.Keys - todo == {};
      UnregisteringNothing(filters, f);
      while todo != {}
        invariant todo <= old(filters).Keys
        invariant filters == Unregistering(old(filters), f, old(filters).Keys - todo)
        decreases |todo|
      {
        var tag :| tag in todo;
        UnregisteringOneMore(old(filters), f, old(filters).Keys - todo, tag);
        assert old(filters).Keys - todo + {tag} == old(filters).Keys - (todo - {tag});
        filters := filters[tag := filters[tag] - {f}];
        todo := todo - {tag};
      }
      assert old(filters).Keys - todo == old(filters).Keys;
      if old(Indexed(filters)) {
        UnregisteringIndexes(old(filters), f);
        if old(Coherent()) {
          forall g | g in Registered() ensures IsCurrent(g.spec, g.compiled, db) {
            assert g in old(Registered());
          }
        }
      }
    }

    /** Compiles the filters of each tag in turn, stopping at the first that fails. */
    method RecompileFilters(tags: seq<string>, queries: nat) returns (ok: bool)
      requires Indexed(filters)
      modifies Registered()
      ensures ok <==> Queries(filters, tags) <= queries
      ensures forall f :: f in Registered() ==>
        if Members(f.spec.TagRefs()) !! Members(tags) then f.compiled == old(f.compiled)
        else Attempted(f.spec, old(f.compiled), f.compiled, db, ok)
    {
      hide Fresh, Listed, Spec.TagRefs, Spec.HasTags, Asking;
      var left: nat := queries;
      ghost var done: set<Filter> := {};
      for i := 0 to |tags|
        invariant done <= Registered()
        invariant left + Queries(filters, tags[..i]) == queries
        invariant forall f :: f in Registered() ==> (f in done <==> !(Members(f.spec.TagRefs()) !! Members(tags[..i])))
        invariant forall f :: f in Registered() ==>
          f.compiled == if f in done then AfterCompile(f.spec, old(f.compiled), db, false) else old(f.compiled)
      {
        assert Members(tags[..i + 1]) == Members(tags[..i]) + {tags[i]};
        forall f | f in Registered() ensures Under(filters, tags[i], f) <==> tags[i] in Members(f.spec.TagRefs()) {}
        assert tags[..i + 1][..i] == tags[..i];
        QueriesGrow(filters, tags, i + 1);
        if tags[i] in filters {
          ok, left := CompileAll(filters[tags[i]], db, left);
          if !ok {
            return;
          }
          done := done + filters[tags[i]];
        }
      }
      assert tags[..|tags|] == tags;
      ok := true;
    }

    /** A write whose recompiles all succeeded leaves every filter current. */
    twostate lemma CoherentAfter(affected: set<string>)
      requires filters == old(filters) && old(Coherent()) && (Compliant() || db.Keys == old(db).Keys)
      requires Writes(old(db), db, affected) && LosesOnly(old(db), db, affected)
      requires forall f :: f in Registered() ==>
        if Members(f.spec.TagRefs()) !! affected then f.compiled == old(f.compiled)
        else Attempted(f.spec, old(f.compiled), f.compiled, db, true)
      ensures Coherent()
    {
      hide Fresh, LosesOnly, Writes, IsCurrent, Spec.Compliant, Spec.TagRefs, AfterCompile, Attempted;
      forall f | f in Registered() ensures IsCurrent(f.spec, f.compiled, db) {
        Completed(f.spec, old(f.compiled), f.compiled, db);
        StaysCurrent(f.spec, old(f.compiled), f.compiled, old(db), db, affected);
      }
    }

    /** UpdateTG: the database returns one of the rows it matched. Failing recompiles are only logged. */
    method UpdateTG(system: Option<int>, tgid: Option<int>, row: Option<ID>, tags: Option<seq<string>>,
                    rowFirst: bool, faults: Faults)
      returns (err: Option<Error>, returned: ID, recompiled: bool)
      requires Indexed(filters)
      modifies this`db, this`tgs, Registered()
      ensures err
           == (if system.None? || tgid.None? then Some(ErrBadTG)
               else if faults.denied then Some(ErrDenied)
               else if system.value !in systems then Some(ErrNoSuchSystem)
               else if faults.writeFails
                       || Matched(old(db), Update(ID(system.value, tgid.value), row, tags)) == {} then Some(ErrDB)
               else None)
      ensures err.Some? ==> db == old(db) && forall f :: f in Registered() ==> f.compiled == old(f.compiled)
      ensures err.Some? && old(CacheAgrees(tgs, db)) ==> CacheAgrees(tgs, db) && old(tgs).Keys <= tgs.Keys
      ensures err.None? ==>
        system.Some? && tgid.Some?
        && var u := Update(ID(system.value, tgid.value), row, tags);
           returned in Matched(old(db), u) && db == UpdatedDB(old(db), u) && returned in db
           && var affected := UpdateAffects(old(tgs), old(db), u, faults.lookupFails, returned);
           tgs == Looked(old(tgs), old(db), u.id, faults.lookupFails)[returned := db[returned]]
           && (recompiled <==> Queries(filters, affected) <= faults.queries)
           && (forall f :: f in Registered() ==>
                 if Members(f.spec.TagRefs()) !! Members(affected) then f.compiled == old(f.compiled)
                 else Attempted(f.spec, old(f.compiled), f.compiled, db, recompiled))
           && (recompiled && old(Coherent()) && LosesOnly(old(db), db, Members(affected)) ==> Coherent())
           && (old(CacheAgrees(tgs, db)) && Matched(old(db), u) == {u.id}
               && (u.id in old(tgs) || !faults.lookupFails) ==>
                 CacheAgrees(tgs, db) && (recompiled && old(Coherent()) ==> Coherent()))
    {
      hide Fresh, LosesOnly, Writes, SetTags, CacheAgrees, IsCurrent, Spec.Compliant, Spec.TagRefs, AfterCompile,
           Attempted, RegisteredIn, Indexed, Matched, Returned, UpdatedDB, Looked, Queries;
      returned, recompiled := ID(0, 0), true;
      if system.None? || tgid.None? {
        return Some(ErrBadTG), returned, recompiled;
      }
      if faults.denied {
        return Some(ErrDenied), returned, recompiled;
      }
      if system.value !in systems {
        return Some(ErrNoSuchSystem), returned, recompiled;
      }
      var u := Update(ID(system.value, tgid.value), row, tags);
      var affected := [];
      tgs := Looked(tgs, db, u.id, faults.lookupFails);
      if u.id in tgs {
        affected := tgs[u.id];
      }
      var matched := Matched(db, u);
      LookedAgrees(old(tgs), db, u.id, faults.lookupFails);
      if faults.writeFails || matched == {} {
        return Some(ErrDB), returned, recompiled;
      }
      returned := Returned(db, u, rowFirst);
      UpdateKeeps(old(tgs), db, u, faults.lookupFails, returned);
      db := UpdatedDB(db, u);
      tgs := tgs[returned := db[returned]];
      affected := affected + db[returned];
      assert affected == UpdateAffects(old(tgs), old(db), u, faults.lookupFails, returned);
      hide UpdateAffects;
      recompiled := RecompileFilters(affected, faults.queries);
      err := None;
      if recompiled && old(Coherent()) && LosesOnly(old(db), db, Members(affected)) {
        CoherentAfter(Members(affected));
      }
    }

    /** UpsertTGs: each row is looked up under the system it names, and written under the one given. */
    method UpsertTGs(lower: string -> string, system: int, rows: seq<Upsert>, faults: Faults)
      returns (err: Option<Error>, recompiled: bool)
      requires Indexed(filters)
      modifies this`db, this`tgs, Registered()
      ensures err
           == (if faults.denied then Some(ErrDenied)
               else if system !in systems then Some(ErrNoSuchSystem)
               else if faults.lookupFails || faults.writeFails then Some(ErrDB)
               else None)
      ensures err.Some? ==> db == old(db) && forall f :: f in Registered() ==> f.compiled == old(f.compiled)
      ensures err.Some? && old(CacheAgrees(tgs, db)) ==> CacheAgrees(tgs, db)
      ensures err.None? ==>
        var primed := Primed(old(tgs), old(db), rows);
        var affected := UpsertAffects(lower, primed, rows);
        db == UpsertedDB(lower, old(db), system, rows)
        && tgs == Added(primed, Results(lower, old(db), system, rows))
        && (exists atags :: Lists(atags, affected) && (recompiled <==> Queries(filters, atags) <= faults.queries))
        && (forall f :: f in Registered() ==>
              if Members(f.spec.TagRefs()) !! affected then f.compiled == old(f.compiled)
              else Attempted(f.spec, old(f.compiled), f.compiled, db, recompiled))
        && (recompiled && old(Coherent()) && (Compliant() || db.Keys == old(db).Keys)
            && LosesOnly(old(db), db, affected) ==>
              Coherent())
        && (old(CacheAgrees(tgs, db)) ==>
              CacheAgrees(tgs, db)
              && ((forall row :: row in rows ==> row.id.system == system) && recompiled && old(Coherent())
                  && (Compliant() || db.Keys == old(db).Keys) ==>
                    Coherent()))
    {
      hide Fresh, LosesOnly, Writes, IsCurrent, Spec.Compliant, Spec.TagRefs, AfterCompile, Attempted, UpsertedDB,
           UpsertAffects, Primed, Added, Results, CacheAgrees, Queries;
      recompiled := true;
      if faults.denied {
        return Some(ErrDenied), recompiled;
      }
      if system !in systems {
        return Some(ErrNoSuchSystem), recompiled;
      }
      if faults.lookupFails {
        return Some(ErrDB), recompiled;
      }
      Prime(rows);
      var affected := AffectedTags(lower, rows);
      var written, results := UpsertRows(lower, db, system, rows);
      if faults.writeFails {
        BatchKeeps(lower, old(tgs), db, system, rows);
        return Some(ErrDB), recompiled;
      }
      db := written;
      AddResults(results);
      var atags := Listing(affected);
      recompiled := RecompileFilters(atags, faults.queries);
      err := None;
      BatchKeeps(lower, old(tgs), old(db), system, rows);
      if recompiled && old(Coherent()) && (Compliant() || db.Keys == old(db).Keys) && LosesOnly(old(db), db, affected) {
        CoherentAfter(affected);
      }
    }

    method Prime(rows: seq<Upsert>)
      modifies this`tgs
      ensures tgs == Primed(old(tgs), db, rows)
    {
      for i := 0 to |rows|
        invariant tgs == Primed(old(tgs), db, rows[..i])
      {
        assert rows[..i + 1][..i] == rows[..i];
        var id := rows[i].id;
        if id !in tgs && id in db {
          tgs := tgs[id := db[id]];
        }
      }
      assert rows[..|rows|] == rows;
    }

    method AffectedTags(lower: string -> string, rows: seq<Upsert>) returns (affected: set<string>)
      ensures affected == UpsertAffects(lower, tgs, rows)
    {
      affected := {};
      for i := 0 to |rows|
        invariant affected == UpsertAffects(lower, tgs, rows[..i])
      {
        assert rows[..i + 1][..i] == rows[..i];
        var row := rows[i];
        if row.id in tgs {
          affected := affected + Members(tgs[row.id]);
        }
        affected := affected + Members(RowTags(lower, row));
      }
      assert rows[..|rows|] == rows;
    }

    method AddResults(results: seq<(ID, seq<string>)>)
      modifies this`tgs
      ensures tgs == Added(old(tgs), results)
    {
      for i := 0 to |results|
        invariant tgs == Added(old(tgs), results[..i])
      {
        assert results[..i + 1][..i] == results[..i];
        tgs := tgs[results[i].0 := results[i].1];
      }
      assert results[..|results|] == results;
    }

    /** LearnTG: a new talkgroup without tags, in a system that is learned first when unknown. */
    method LearnTG(id: ID, faults: Faults) returns (err: Option<Error>)
      modifies this`db, this`tgs, this`systems
      ensures err
           == (if faults.denied then Some(ErrDenied)
               else if id.system !in old(systems) && faults.lookupFails then Some(ErrNoSuchSystem)
               else if faults.writeFails || id in old(db) then Some(ErrDB)
               else None)
      ensures systems == if err == Some(ErrDenied) || err == Some(ErrNoSuchSystem) then old(systems)
                         else old(systems) + {id.system}
      ensures err.Some? ==> db == old(db) && tgs == old(tgs)
      ensures err.None? ==> id !in old(db) && db == old(db)[id := []] && tgs == old(tgs)[id := []]
      ensures old(Coherent()) && Compliant() ==> Coherent()
      ensures old(CacheAgrees(tgs, db)) ==> CacheAgrees(tgs, db)
    {
      if faults.denied {
        return Some(ErrDenied);
      }
      if id.system !in systems {
        if faults.lookupFails {
          return Some(ErrNoSuchSystem);
        }
        systems := systems + {id.system};
      }
      if faults.writeFails || id in db {
        return Some(ErrDB);
      }
      LearnedCovers(db, id);
      db := db[id := []];
      tgs := tgs[id := []];
      err := None;
      if old(Coherent()) && Compliant() {
        forall f | f in Registered() ensures IsCurrent(f.spec, f.compiled, db) {
          StaysCurrent(f.spec, f.compiled, f.compiled, old(db), db, {});
        }
      }
    }

    /** DeleteTG recompiles nothing: the filters stay current exactly when none had selected the
        talkgroup by its tags alone. */
    method DeleteTG(id: ID, faults: Faults) returns (err: Option<Error>)
      modifies this`db, this`tgs
      ensures err == if faults.denied then Some(ErrDenied) else if faults.writeFails then Some(ErrDB) else None
      ensures err.Some? ==> db == old(db) && tgs == old(tgs)
      ensures err.None? ==> db == old(db) - {id} && tgs == old(tgs) - {id}
      ensures old(CacheAgrees(tgs, db)) ==> CacheAgrees(tgs, db)
      ensures err.None? && old(Coherent()) ==>
        (Coherent() <==> forall f :: f in Registered() && !f.spec.all && f.compiled.Some? ==>
           id !in Selected(f.spec, old(db)) || id in f.spec.talkgroups || id in f.spec.talkgroupsNot)
    {
      hide Fresh, Selected;
      if faults.denied {
        return Some(ErrDenied);
      }
      if faults.writeFails {
        return Some(ErrDB);
      }
      db := db - {id};
      tgs := tgs - {id};
      err := None;
      forall f | f in Registered()
        ensures Fresh(f.spec, db) == Fresh(f.spec, old(db)) <==>
          (id !in Selected(f.spec, old(db)) || id in f.spec.talkgroups || id in f.spec.talkgroupsNot)
      {
        DeleteMatters(f.spec, old(db), id);
      }
    }
  }

  /** The batch, one statement after the other. */
  method UpsertRows(lower: string -> string, db: Tags, system: int, rows: seq<Upsert>)
    returns (written: Tags, results: seq<(ID, seq<string>)>)
    ensures written == UpsertedDB(lower, db, system, rows) && results == Results(lower, db, system, rows)
  {
    hide RowTags;
    written, results := db, [];
    for i := 0 to |rows|
      invariant written == UpsertedDB(lower, db, system, rows[..i]) && results == Results(lower, db, system, rows[..i])
    {
      assert rows[..i + 1][..i] == rows[..i];
      var id := Target(system, rows[i]);
      var tags := if rows[i].tags.None? && id in written then written[id] else RowTags(lower, rows[i]);
      written := written[id := tags];
      results := results + [(id, tags)];
    }
    assert rows[..|rows|] == rows;
  }

  /** Each tag of a set once, in any order. */
  predicate Lists(s: seq<string>, tags: set<string>) {
    Members(s) == tags && forall i, j :: 0 <= i < j < |s| ==> s[i] != s[j]
  }

  method Listing(tags: set<string>) returns (s: seq<string>)
    ensures Lists(s, tags)
  {
    s := [];
    var todo := tags;
    while todo != {}
      invariant todo <= tags && Lists(s, tags - todo)
      decreases |todo|
    {
      var tag :| tag in todo;
      assert Members(s + [tag]) == Members(s) + {tag};
      assert tag !in Members(s);
      s := s + [tag];
      todo := todo - {tag};
    }
  }
}
