/**
 What a talkgroup filter lets through (pkg/calls/filter/filter.go), as a function of the talkgroups'
 tags in the database, and which filters a change of those tags can affect.
 */
module TagFilters {
  import opened GoStrings

  datatype ID = ID(system: int, talkgroup: int)

  // The tags column of the talkgroups table, which is never NULL.
  type Tags = map<ID, seq<string>>

  // A filter's configuration. A missing list of all-tags is a NULL in the query; the other two lists
  // are made empty.
  datatype Spec = Spec(talkgroups: seq<ID>, talkgroupsNot: seq<ID>, tagsAll: Option<seq<string>>, tagsAny: seq<string>,
                       tagsNot: seq<string>, all: bool)
  {
    function TagRefs(): seq<string> {
      (if tagsAll.Some? then tagsAll.value else []) + (tagsNot + tagsAny)
    }

    predicate HasTags() {
      TagRefs() != []
    }

    /** A list of all-tags that is there but empty is contained in every talkgroup's tags. */
    predicate Compliant() {
      tagsAll.Some? && tagsAll.value == [] ==> !HasTags()
    }
  }

  // ---- The query: SQL's three-valued logic ---------------------------------------------------------

  function Or(a: Option<bool>, b: Option<bool>): Option<bool> {
    if a == Some(true) || b == Some(true) then Some(true) else if a.None? || b.None? then None else Some(false)
  }

  function And(a: Option<bool>, b: Option<bool>): Option<bool> {
    if a == Some(false) || b == Some(false) then Some(false) else if a.None? || b.None? then None else Some(true)
  }

  function Contains(tags: seq<string>, all: Option<seq<string>>): Option<bool> {
    if all.None? then None else Some(Members(all.value) <= Members(tags))
  }

  predicate Overlaps(a: seq<string>, b: seq<string>) {
    !(Members(a) !! Members(b))
  }

  /** A row is selected when its condition is true, not NULL. */
  predicate Selects(f: Spec, tags: seq<string>) {
    And(Or(Contains(tags, f.tagsAll), Some(Overlaps(tags, f.tagsAny))), Some(!Overlaps(tags, f.tagsNot))) == Some(true)
  }

  function Selected(f: Spec, db: Tags): set<ID> {
    if f.HasTags() then set id | id in db && Selects(f, db[id]) else {}
  }

  // ---- Compiling ---------------------------------------------------------------------------------------

  function IDs(ids: seq<ID>): set<ID> {
    set id | id in ids
  }

  /** Talkgroups that pass, but for the excluded ones. */
  function Marked(ids: set<ID>, excluded: set<ID>): map<ID, bool> {
    map id | id in ids :: id !in excluded
  }

  lemma MarkedOneMore(ids: set<ID>, excluded: set<ID>, id: ID, passes: bool)
    requires passes ==> id !in excluded
    ensures Marked(ids, excluded)[id := passes] == Marked(ids + {id}, if passes then excluded else excluded + {id})
  {}

  /** A compile against the database: listed and selected talkgroups pass, excluded ones do not. */
  function Fresh(f: Spec, db: Tags): map<ID, bool> {
    Marked(IDs(f.talkgroups) + Selected(f, db) + IDs(f.talkgroupsNot), IDs(f.talkgroupsNot))
  }

  /** What a compile whose query fails leaves behind: the listed talkgroups only. */
  function Listed(f: Spec): map<ID, bool> {
    Marked(IDs(f.talkgroups), {})
  }

  function AfterCompile(f: Spec, was: Option<map<ID, bool>>, db: Tags, fails: bool): Option<map<ID, bool>> {
    if f.all then was
    else if f.HasTags() && fails then Some(Listed(f))
    else Some(Fresh(f, db))
  }

  // ---- Testing a call ------------------------------------------------------------------------------------

  /** The first of the call's talkgroup and its patches that the filter knows decides; none, no call. */
  function Verdict(known: map<ID, bool>, system: int, tgs: seq<int>): bool {
    if tgs == [] then false
    else if ID(system, tgs[0]) in known then known[ID(system, tgs[0])]
    else Verdict(known, system, tgs[1..])
  }

  /** What the filter says of a call, straight from the database. */
  predicate Passes(f: Spec, db: Tags, system: int, tgs: seq<int>) {
    f.all || Verdict(Fresh(f, db), system, tgs)
  }

  // ---- What they mean ---------------------------------------------------------------------------------------

  /** A filter with tags selects exactly the talkgroups that have none of the excluded tags and either all
      of the all-tags, when there is such a list, or one of the any-tags; one without selects nothing. */
  lemma SelectedExactly(f: Spec, db: Tags, id: ID)
    ensures id in Selected(f, db) <==>
      (f.tagsNot != [] || f.tagsAny != [] || (f.tagsAll.Some? && f.tagsAll.value != []))
      && id in db && (forall tag :: tag in f.tagsNot ==> tag !in db[id])
      && ((f.tagsAll.Some? && forall tag :: tag in f.tagsAll.value ==> tag in db[id])
          || exists tag :: tag in f.tagsAny && tag in db[id])
  {
    if id in db {
      MeetingTags(db[id], f.tagsAny);
      MeetingTags(db[id], f.tagsNot);
      if f.tagsAll.Some? {
        IncludedTags(f.tagsAll.value, db[id]);
      }
    }
  }

  lemma MeetingTags(a: seq<string>, b: seq<string>)
    ensures Overlaps(a, b) <==> exists tag :: tag in b && tag in a
  {
    assert forall tag :: tag in Members(a) * Members(b) <==> tag in b && tag in a;
  }

  lemma IncludedTags(a: seq<string>, b: seq<string>)
    ensures Members(a) <= Members(b) <==> forall tag :: tag in a ==> tag in b
  {
    assert forall tag :: tag in a <==> tag in Members(a);
  }

  /** A compile knows exactly the talkgroups that are listed, selected or excluded by number, and lets
      through those that are not excluded. */
  lemma FreshExactly(f: Spec, db: Tags, id: ID)
    ensures id in Fresh(f, db) <==> id in f.talkgroups || id in Selected(f, db) || id in f.talkgroupsNot
    ensures id in Fresh(f, db) && Fresh(f, db)[id] <==>
      id !in f.talkgroupsNot && (id in f.talkgroups || id in Selected(f, db))
  {
    hide Selected;
  }

  /** What a compile leaves: a filter for everything is as it was; one whose query fails lets through exactly
      what it lists; any other exactly what is not excluded by number and is listed or selected. */
  lemma CompileExactly(f: Spec, was: Option<map<ID, bool>>, db: Tags, fails: bool, id: ID)
    ensures var now := AfterCompile(f, was, db, fails);
            if f.all then now == was
            else
              now.Some?
              && (id in now.value && now.value[id] <==>
                    if fails && (f.tagsNot != [] || f.tagsAny != [] || (f.tagsAll.Some? && f.tagsAll.value != []))
                    then id in f.talkgroups
                    else id !in f.talkgroupsNot && (id in f.talkgroups || id in Selected(f, db)))
  {
    hide Fresh, Selected;
    FreshExactly(f, db, id);
  }

  /** A map lets a call through exactly when the first of its talkgroups that it knows is mapped to true. */
  lemma {:induction false} VerdictExactly(known: map<ID, bool>, system: int, tgs: seq<int>)
    ensures Verdict(known, system, tgs) <==>
      exists i :: 0 <= i < |tgs| && ID(system, tgs[i]) in known && known[ID(system, tgs[i])]
                  && forall j :: 0 <= j < i ==> ID(system, tgs[j]) !in known
  {
    if tgs != [] && ID(system, tgs[0]) !in known {
      var rest := tgs[1..];
      VerdictExactly(known, system, rest);
      if Verdict(known, system, rest) {
        var i :| 0 <= i < |rest| && ID(system, rest[i]) in known && known[ID(system, rest[i])]
                 && forall j :: 0 <= j < i ==> ID(system, rest[j]) !in known;
        forall j | 0 <= j < i + 1 ensures ID(system, tgs[j]) !in known {
          assert j > 0 ==> tgs[j] == rest[j - 1];
        }
        assert tgs[i + 1] == rest[i];
      }
      if i :| 0 <= i < |tgs| && ID(system, tgs[i]) in known && known[ID(system, tgs[i])]
              && forall j :: 0 <= j < i ==> ID(system, tgs[j]) !in known {
        assert rest[i - 1] == tgs[i];
        forall j | 0 <= j < i - 1 ensures ID(system, rest[j]) !in known {
          assert rest[j] == tgs[j + 1];
        }
      }
    }
  }

  /** A call's own talkgroup decides whenever the filter knows it, whatever its patches. */
  lemma OwnTalkgroupDecides(f: Spec, db: Tags, id: ID, patches: seq<int>)
    requires !f.all && id in Fresh(f, db)
    ensures Passes(f, db, id.system, [id.talkgroup] + patches) <==>
      id !in f.talkgroupsNot && (id in f.talkgroups || id in Selected(f, db))
  {
    hide Fresh, Selected;
    FreshExactly(f, db, id);
  }

  // ---- Which filters a change of tags affects --------------------------------------------------------------

  /** Tags that share nothing with a compliant filter do not make it select anything. */
  lemma Unselected(f: Spec, tags: seq<string>)
    requires f.Compliant() && f.HasTags() && !Overlaps(tags, f.TagRefs())
    ensures !Selects(f, tags)
  {
    forall t | t in Members(tags) ensures t !in f.tagsAny {
      assert t !in Members(f.TagRefs());
    }
    assert Members(tags) !! Members(f.tagsAny);
    if f.tagsAll.Some? {
      var t := f.tagsAll.value[0];
      assert t in f.TagRefs() && t in Members(f.TagRefs()) && t in Members(f.tagsAll.value);
      assert t !in Members(tags);
    }
  }

  /** Tags that share nothing with a filter are all the same to it. */
  lemma SelectsAlike(f: Spec, a: seq<string>, b: seq<string>)
    requires f.HasTags() && !Overlaps(a, f.TagRefs()) && !Overlaps(b, f.TagRefs())
    ensures Selects(f, a) == Selects(f, b)
  {
    if f.Compliant() {
      Unselected(f, a);
      Unselected(f, b);
    } else {
      assert Members([]) == {};
      forall t | t in Members(f.tagsAny) || t in Members(f.tagsNot) ensures t in Members(f.TagRefs()) {
        assert t in f.TagRefs();
      }
    }
  }

  /** Writing tags the filter does not refer to, over tags it does not refer to, leaves its compile alone. */
  ghost predicate Indifferent(f: Spec, db: Tags, id: ID, tags: seq<string>) {
    !Overlaps(tags, f.TagRefs()) && (id in db ==> !Overlaps(db[id], f.TagRefs())) ==>
      Fresh(f, db[id := tags]) == Fresh(f, db)
  }

  /** What a compile returns depends on a talkgroup's tags only through those it refers to, exactly for
      the compliant filters: with an empty list of all-tags, any new talkgroup is selected. */
  lemma UnaffectedExactly(f: Spec)
    ensures f.Compliant() <==> forall db: Tags, id: ID, tags: seq<string> :: Indifferent(f, db, id, tags)
  {
    if f.Compliant() {
      forall db: Tags, id: ID, tags: seq<string> ensures Indifferent(f, db, id, tags) {
        if f.HasTags() && !Overlaps(tags, f.TagRefs()) && (id in db ==> !Overlaps(db[id], f.TagRefs())) {
          Unselected(f, tags);
          if id in db {
            Unselected(f, db[id]);
          }
        }
        assert Indifferent(f, db, id, tags) by {
          if !Overlaps(tags, f.TagRefs()) && (id in db ==> !Overlaps(db[id], f.TagRefs())) {
            assert Selected(f, db[id := tags]) == Selected(f, db);
          }
        }
      }
    } else {
      var id := Unlisted(f.talkgroups + f.talkgroupsNot);
      var none: Tags, tags: seq<string> := map[], [];
      assert Members(tags) == {} && !Overlaps(tags, f.TagRefs());
      assert Selects(f, tags) && id in Selected(f, none[id := tags]);
      assert id in Fresh(f, none[id := tags]) && id !in Fresh(f, none);
      assert !Indifferent(f, none, id, tags);
    }
  }

  /** A talkgroup that is there already makes no difference to any filter. */
  lemma KnownIndifferent(f: Spec, db: Tags, id: ID, tags: seq<string>)
    requires id in db
    ensures Indifferent(f, db, id, tags)
  {
    if f.HasTags() && !Overlaps(tags, f.TagRefs()) && !Overlaps(db[id], f.TagRefs()) {
      SelectsAlike(f, tags, db[id]);
      assert Selected(f, db[id := tags]) == Selected(f, db);
    }
  }

  lemma {:induction false} Unlisted(ids: seq<ID>) returns (id: ID)
    ensures id !in ids && forall other :: other in ids ==> other.talkgroup < id.talkgroup
  {
    if ids == [] {
      id := ID(0, 0);
    } else {
      var rest := Unlisted(ids[1..]);
      id := ID(0, if ids[0].talkgroup >= rest.talkgroup then ids[0].talkgroup + 1 else rest.talkgroup);
    }
  }

  /** The tags that some talkgroup loses. */
  predicate LosesOnly(db: Tags, db2: Tags, affected: set<string>) {
    forall id, tag :: id in db && tag in db[id] && id in db2 && tag !in db2[id] ==> tag in affected
  }

  /** A change adds or keeps talkgroups, and whatever tags it writes are among the affected ones. */
  predicate Writes(db: Tags, db2: Tags, affected: set<string>) {
    db.Keys <= db2.Keys
    && forall id :: id in db2 ==> (id in db && db2[id] == db[id]) || Members(db2[id]) <= affected
  }

  /** Recompiling the filters that refer to an affected tag is enough, whatever filters there are,
      exactly when every tag that some talkgroup loses is among the affected ones. When the write adds a
      talkgroup, the filters are meant to be compliant. */
  lemma RecompileSuffices(db: Tags, db2: Tags, affected: set<string>)
    requires Writes(db, db2, affected)
    ensures LosesOnly(db, db2, affected) <==>
      forall f: Spec :: (f.Compliant() || db.Keys == db2.Keys) && Members(f.TagRefs()) !! affected ==>
        Fresh(f, db2) == Fresh(f, db)
  {
    if LosesOnly(db, db2, affected) {
      forall f: Spec | (f.Compliant() || db.Keys == db2.Keys) && Members(f.TagRefs()) !! affected
        ensures Fresh(f, db2) == Fresh(f, db)
      {
        SameFresh(f, db, db2, affected);
      }
    } else {
      var id, tag :| id in db && tag in db[id] && id in db2 && tag !in db2[id] && tag !in affected;
      var f := Spec([], [], None, [tag], [], false);
      assert tag in Members(db[id]) && tag in Members(f.tagsAny);
      assert f.TagRefs() == [tag] && f.HasTags();
      assert Members(f.TagRefs()) == {tag};
      assert Members(f.tagsNot) == {};
      assert Selects(f, db[id]) && !Selects(f, db2[id]);
      assert id in Fresh(f, db) && id !in Fresh(f, db2);
    }
  }

  lemma SameFresh(f: Spec, db: Tags, db2: Tags, affected: set<string>)
    requires Writes(db, db2, affected) && LosesOnly(db, db2, affected)
    requires (f.Compliant() || db.Keys == db2.Keys) && Members(f.TagRefs()) !! affected
    ensures Fresh(f, db2) == Fresh(f, db)
  {
    if f.HasTags() {
      forall id | id in db2 && !(id in db && db2[id] == db[id])
        ensures if id in db then Selects(f, db2[id]) == Selects(f, db[id]) else !Selects(f, db2[id])
      {
        if id !in db {
          Unselected(f, db2[id]);
        } else {
          forall tag | tag in Members(db[id]) ensures tag !in Members(f.TagRefs()) {
            if tag in db2[id] {
              assert tag in Members(db2[id]);
            }
          }
          SelectsAlike(f, db2[id], db[id]);
        }
      }
    }
    assert Selected(f, db2) == Selected(f, db);
  }

  /** Deleting a talkgroup leaves a filter's compile as it was exactly when the filter did not select it
      by its tags, or lists or excludes it by number. */
  lemma DeleteMatters(f: Spec, db: Tags, id: ID)
    ensures Fresh(f, db - {id}) == Fresh(f, db)
        <==> (id !in Selected(f, db) || id in f.talkgroups || id in f.talkgroupsNot)
  {
    assert Selected(f, db - {id}) == Selected(f, db) - {id};
    if id in Selected(f, db) && id !in f.talkgroups && id !in f.talkgroupsNot {
      assert id in Fresh(f, db) && id !in Fresh(f, db - {id});
    }
  }

  /** A failed compile is as good as a fresh one exactly when the filter excludes nothing by number and
      selects by tag only what it lists. */
  lemma PartialIsFresh(f: Spec, db: Tags)
    ensures Listed(f) == Fresh(f, db)
        <==> (f.talkgroupsNot == [] && forall id :: id in Selected(f, db) ==> id in f.talkgroups)
  {
    if f.talkgroupsNot != [] {
      var id := f.talkgroupsNot[0];
      assert id in Fresh(f, db) && !Fresh(f, db)[id];
      assert id in Listed(f) ==> Listed(f)[id];
    } else if id :| id in Selected(f, db) && id !in f.talkgroups {
      assert id in Fresh(f, db) && id !in Listed(f);
    }
  }

  /** A filter with nothing but excluded tags lets no call through, and one with an empty list of
      all-tags and an excluded tag lets every talkgroup without it through. */
  lemma ExcludedTagsAlone(db: Tags, all: Option<seq<string>>, tagsNot: seq<string>)
    requires tagsNot != [] && (all.Some? ==> all.value == [])
    ensures Selected(Spec([], [], all, [], tagsNot, false), db)
         == if all.None? then {} else set id | id in db && !Overlaps(db[id], tagsNot)
  {
    var f := Spec([], [], all, [], tagsNot, false);
    assert Members([]) == {};
    assert f.HasTags();
    forall id | id in db ensures Selects(f, db[id]) <==> all.Some? && !Overlaps(db[id], tagsNot) {}
  }
}
