/**
 The writes to talkgroups that change tags (UpdateTG, UpsertTGs and LearnTG of
 pkg/talkgroups/tgstore/store.go) on values: the tags column, the talkgroup cache, and the tags whose
 filters are recompiled afterwards.
 */
module TagWrites {
  import opened GoStrings
  import opened TagFilters

  /** Every cached talkgroup is in the database with the same tags. */
  predicate CacheAgrees(tgs: Tags, db: Tags) {
    forall id :: id in tgs ==> id in db && tgs[id] == db[id]
  }

  // ---- UpdateTG -----------------------------------------------------------------------------------------

  // The talkgroup named by number, and the one whose row the input's row id names.
  datatype Update = Update(id: ID, row: Option<ID>, tags: Option<seq<string>>)

  /** COALESCE: no tags keep the old ones. */
  function SetTags(db: Tags, id: ID, tags: Option<seq<string>>): Tags {
    if id in db && tags.Some? then db[id := tags.value] else db
  }

  /** UPDATE ... WHERE id = row OR (system_id, tgid) = id. */
  function UpdatedDB(db: Tags, u: Update): Tags {
    var db1 := SetTags(db, u.id, u.tags);
    if u.row.Some? then SetTags(db1, u.row.value, u.tags) else db1
  }

  function Matched(db: Tags, u: Update): set<ID> {
    db.Keys * ({u.id} + if u.row.Some? then {u.row.value} else {})
  }

  /** The row the database returns of those it matched. */
  function Returned(db: Tags, u: Update, rowFirst: bool): (id: ID)
    ensures Matched(db, u) != {} ==> id in Matched(db, u)
  {
    if u.row.Some? && u.row.value in db && (rowFirst || u.id !in db) then u.row.value else u.id
  }

  /** The cache after a look at one talkgroup, which may fail. */
  function Looked(tgs: Tags, db: Tags, id: ID, fails: bool): Tags {
    if id in tgs || id !in db || fails then tgs else tgs[id := db[id]]
  }

  lemma LookedAgrees(tgs: Tags, db: Tags, id: ID, fails: bool)
    ensures CacheAgrees(tgs, db) ==> CacheAgrees(Looked(tgs, db, id, fails), db)
    ensures tgs.Keys <= Looked(tgs, db, id, fails).Keys
  {}

  function UpdateAffects(tgs: Tags, db: Tags, u: Update, lookupFails: bool, returned: ID): seq<string>
    requires returned in UpdatedDB(db, u)
  {
    var looked := Looked(tgs, db, u.id, lookupFails);
    (if u.id in looked then looked[u.id] else []) + UpdatedDB(db, u)[returned]
  }

  /** An update with tags gives them to every talkgroup it matches, by number or by row id, and leaves all
      others alone. */
  lemma UpdateLeaves(db: Tags, u: Update)
    ensures UpdatedDB(db, u).Keys == db.Keys
    ensures forall id :: id in db ==>
      UpdatedDB(db, u)[id] == if u.tags.Some? && (id == u.id || u.row == Some(id)) then u.tags.value else db[id]
    ensures forall id :: id in Matched(db, u) <==> id in db && (id == u.id || u.row == Some(id))
  {}

  lemma UpdateWrites(tgs: Tags, db: Tags, u: Update, lookupFails: bool, returned: ID)
    requires returned in Matched(db, u)
    ensures returned in UpdatedDB(db, u) && UpdatedDB(db, u).Keys == db.Keys
    ensures Writes(db, UpdatedDB(db, u), Members(UpdateAffects(tgs, db, u, lookupFails, returned)))
  {
    var db2 := UpdatedDB(db, u);
    var affected := UpdateAffects(tgs, db, u, lookupFails, returned);
    forall id | id in db2 && db2[id] != db[id] ensures Members(db2[id]) <= Members(affected) {
      assert db2[id] == db2[returned] == u.tags.value;
    }
  }

  /** An update reports every lost tag exactly when it gives no tags, or each talkgroup it matches keeps
      its tags but for those seen on the talkgroup named by number. */
  lemma UpdateCoversExactly(tgs: Tags, db: Tags, u: Update, lookupFails: bool, returned: ID)
    requires CacheAgrees(tgs, db) && returned in Matched(db, u)
    ensures returned in UpdatedDB(db, u)
    ensures LosesOnly(db, UpdatedDB(db, u), Members(UpdateAffects(tgs, db, u, lookupFails, returned)))
       <==> u.tags.None? || forall id, tag :: id in Matched(db, u) && tag in db[id] && tag !in u.tags.value ==>
              u.id in db && (u.id in tgs || !lookupFails) && tag in db[u.id]
  {
    var db2 := UpdatedDB(db, u);
    var affected := UpdateAffects(tgs, db, u, lookupFails, returned);
    if u.tags.Some? {
      forall id, tag | id in db && tag in db[id]
        ensures id in db2 && (tag !in db2[id] <==> id in Matched(db, u) && tag !in u.tags.value)
      {}
      forall tag ensures tag in Members(affected) <==>
        tag in u.tags.value || (u.id in db && (u.id in tgs || !lookupFails) && tag in db[u.id])
      {
        assert affected == (if u.id in Looked(tgs, db, u.id, lookupFails) then db[u.id] else []) + u.tags.value;
      }
    }
  }

  /** One matched row, seen beforehand: all that it loses is reported, and the cache stays right. */
  lemma UpdateCovers(tgs: Tags, db: Tags, u: Update, lookupFails: bool)
    requires CacheAgrees(tgs, db) && Matched(db, u) == {u.id} && (u.id in tgs || !lookupFails)
    ensures var db2 := UpdatedDB(db, u);
            u.id in db2
            && LosesOnly(db, db2, Members(UpdateAffects(tgs, db, u, lookupFails, u.id)))
            && CacheAgrees(Looked(tgs, db, u.id, lookupFails)[u.id := db2[u.id]], db2)
  {
    assert u.id in Matched(db, u);
    if u.row.Some? && u.row.value in db {
      assert u.row.value in Matched(db, u);
    }
    UpdateCoversExactly(tgs, db, u, lookupFails, u.id);
  }

  /** An update writes only tags it reports, and with one matched row, seen beforehand, reports all that is
      lost and keeps a right cache right. */
  lemma UpdateKeeps(tgs: Tags, db: Tags, u: Update, lookupFails: bool, returned: ID)
    requires returned in Matched(db, u)
    ensures returned in UpdatedDB(db, u) && UpdatedDB(db, u).Keys == db.Keys
    ensures var db2, affected := UpdatedDB(db, u), Members(UpdateAffects(tgs, db, u, lookupFails, returned));
            Writes(db, db2, affected)
            && (CacheAgrees(tgs, db) && Matched(db, u) == {u.id} && (u.id in tgs || !lookupFails) ==>
                  LosesOnly(db, db2, affected)
                  && CacheAgrees(Looked(tgs, db, u.id, lookupFails)[returned := db2[returned]], db2))
  {
    hide UpdatedDB, UpdateAffects, CacheAgrees, Writes, LosesOnly, Looked, Matched;
    UpdateWrites(tgs, db, u, lookupFails, returned);
    if CacheAgrees(tgs, db) && Matched(db, u) == {u.id} && (u.id in tgs || !lookupFails) {
      assert returned == u.id;
      UpdateCovers(tgs, db, u, lookupFails);
    }
  }

  // ---- UpsertTGs --------------------------------------------------------------------------------------------

  // A row of the input: the system and talkgroup it names, and its tags.
  datatype Upsert = Upsert(id: ID, tags: Option<seq<string>>)

  function Lower(lower: string -> string, tags: seq<string>): (r: seq<string>)
    ensures |r| == |tags|
  {
    if tags == [] then [] else Lower(lower, tags[..|tags| - 1]) + [lower(tags[|tags| - 1])]
  }

  function RowTags(lower: string -> string, row: Upsert): seq<string> {
    if row.tags.Some? then Lower(lower, row.tags.value) else []
  }

  /** Where the row is written: the system it names is overwritten. */
  function Target(system: int, row: Upsert): ID {
    ID(system, row.id.talkgroup)
  }

  /** INSERT ... ON CONFLICT DO UPDATE of one row. */
  function UpsertRow(lower: string -> string, db: Tags, system: int, row: Upsert): Tags {
    var id := Target(system, row);
    db[id := if row.tags.None? && id in db then db[id] else RowTags(lower, row)]
  }

  function UpsertedDB(lower: string -> string, db: Tags, system: int, rows: seq<Upsert>): (r: Tags)
    ensures db.Keys <= r.Keys
    ensures forall row :: row in rows ==> Target(system, row) in r
  {
    if rows == [] then db
    else UpsertRow(lower, UpsertedDB(lower, db, system, rows[..|rows| - 1]), system, rows[|rows| - 1])
  }

  /** The cache primed with the rows' talkgroups, under the systems the rows name. */
  function Primed(tgs: Tags, db: Tags, rows: seq<Upsert>): Tags {
    if rows == [] then tgs
    else Looked(Primed(tgs, db, rows[..|rows| - 1]), db, rows[|rows| - 1].id, false)
  }

  function UpsertAffects(lower: string -> string, tgs: Tags, rows: seq<Upsert>): set<string> {
    if rows == [] then {}
    else
      var row := rows[|rows| - 1];
      UpsertAffects(lower, tgs, rows[..|rows| - 1])
      + (if row.id in tgs then Members(tgs[row.id]) else {}) + Members(RowTags(lower, row))
  }

  /** What the statements return: each row's tags as its own statement left them. */
  function Results(lower: string -> string, db: Tags, system: int, rows: seq<Upsert>): seq<(ID, seq<string>)> {
    if rows == [] then []
    else
      var id := Target(system, rows[|rows| - 1]);
      Results(lower, db, system, rows[..|rows| - 1]) + [(id, UpsertedDB(lower, db, system, rows)[id])]
  }

  /** The cache after the results are added in order. */
  function Added(tgs: Tags, results: seq<(ID, seq<string>)>): Tags {
    if results == [] then tgs
    else
      var last := results[|results| - 1];
      Added(tgs, results[..|results| - 1])[last.0 := last.1]
  }

  lemma {:induction false} PrimedAgrees(tgs: Tags, db: Tags, rows: seq<Upsert>)
    requires CacheAgrees(tgs, db)
    ensures CacheAgrees(Primed(tgs, db, rows), db)
    ensures forall row :: row in rows && row.id in db ==> row.id in Primed(tgs, db, rows)
  {
    if rows != [] {
      var n := |rows| - 1;
      PrimedAgrees(tgs, db, rows[..n]);
      forall row | row in rows && row.id in db ensures row.id in Primed(tgs, db, rows) {
        if row != rows[n] {
          assert row in rows[..n];
        }
      }
    }
  }

  lemma {:induction false} ResultsAgree(lower: string -> string, tgs: Tags, db: Tags, system: int, rows: seq<Upsert>)
    requires CacheAgrees(tgs, db)
    ensures CacheAgrees(Added(tgs, Results(lower, db, system, rows)), UpsertedDB(lower, db, system, rows))
    ensures tgs.Keys <= Added(tgs, Results(lower, db, system, rows)).Keys
    ensures forall row :: row in rows ==> Target(system, row) in Added(tgs, Results(lower, db, system, rows))
  {
    if rows != [] {
      var results := Results(lower, db, system, rows);
      assert results[..|results| - 1] == Results(lower, db, system, rows[..|rows| - 1]);
      assert forall row :: row in rows <==> row in rows[..|rows| - 1] || row == rows[|rows| - 1];
      ResultsAgree(lower, tgs, db, system, rows[..|rows| - 1]);
    }
  }

  /** An upsert writes only tags it reports. */
  lemma {:induction false} UpsertWrites(lower: string -> string, tgs: Tags, db: Tags, system: int, rows: seq<Upsert>)
    ensures Writes(db, UpsertedDB(lower, db, system, rows), UpsertAffects(lower, tgs, rows))
  {
    if rows != [] {
      var n := |rows| - 1;
      UpsertWrites(lower, tgs, db, system, rows[..n]);
      var db1, db2 := UpsertedDB(lower, db, system, rows[..n]), UpsertedDB(lower, db, system, rows);
      var id := Target(system, rows[n]);
      assert Members([]) == {};
      forall other | other in db2
        ensures (other in db && db2[other] == db[other]) || Members(db2[other]) <= UpsertAffects(lower, tgs, rows)
      {
        if other != id || (rows[n].tags.None? && id in db1) {
          assert db2[other] == db1[other];
        }
      }
    }
  }

  /** Only the targets of rows change. */
  lemma {:induction false} OnlyTargets(lower: string -> string, db: Tags, system: int, rows: seq<Upsert>, id: ID)
    requires id in db && UpsertedDB(lower, db, system, rows)[id] != db[id]
    ensures exists row :: row in rows && Target(system, row) == id
  {
    var n := |rows| - 1;
    if Target(system, rows[n]) == id {
      assert rows[n] in rows;
    } else {
      OnlyTargets(lower, db, system, rows[..n], id);
      var row :| row in rows[..n] && Target(system, row) == id;
      assert row in rows;
    }
  }

  lemma {:induction false} OldTagsAffected(lower: string -> string, tgs: Tags, rows: seq<Upsert>, row: Upsert)
    requires row in rows && row.id in tgs
    ensures Members(tgs[row.id]) <= UpsertAffects(lower, tgs, rows)
  {
    hide Members, RowTags, Lower;
    var n := |rows| - 1;
    if row != rows[n] {
      assert row in rows[..n];
      OldTagsAffected(lower, tgs, rows[..n], row);
    }
  }

  /** When the rows name the system they are written to, every lost tag is reported. */
  lemma UpsertCovers(lower: string -> string, tgs: Tags, db: Tags, system: int, rows: seq<Upsert>)
    requires CacheAgrees(tgs, db) && forall row :: row in rows ==> row.id.system == system
    ensures LosesOnly(db, UpsertedDB(lower, db, system, rows), UpsertAffects(lower, Primed(tgs, db, rows), rows))
  {
    var db2, primed := UpsertedDB(lower, db, system, rows), Primed(tgs, db, rows);
    PrimedAgrees(tgs, db, rows);
    forall id, tag | id in db && tag in db[id] && id in db2 && tag !in db2[id]
      ensures tag in UpsertAffects(lower, primed, rows)
    {
      OnlyTargets(lower, db, system, rows, id);
      var row :| row in rows && Target(system, row) == id;
      OldTagsAffected(lower, primed, rows, row);
      assert tag in Members(primed[row.id]);
    }
  }

  /** For one row, every lost tag is reported exactly when the row names its system, or keeps the tags, or
      writes a new talkgroup, or every tag it drops is found on the talkgroup it names instead. */
  lemma OneRowCovers(lower: string -> string, tgs: Tags, db: Tags, system: int, row: Upsert)
    requires CacheAgrees(tgs, db)
    ensures LosesOnly(db, UpsertedDB(lower, db, system, [row]), UpsertAffects(lower, Primed(tgs, db, [row]), [row]))
       <==> row.id.system == system || row.tags.None? || Target(system, row) !in db
            || forall tag :: tag in db[Target(system, row)] && tag !in RowTags(lower, row) ==>
              row.id in db && tag in db[row.id]
  {
    var rows := [row];
    var db2, primed := UpsertedDB(lower, db, system, rows), Primed(tgs, db, rows);
    PrimedAgrees(tgs, db, rows);
    var id := Target(system, row);
    assert rows[..|rows| - 1] == [];
    assert UpsertedDB(lower, db, system, []) == db && UpsertAffects(lower, primed, []) == {};
    assert db2 == UpsertRow(lower, db, system, row);
    var affected := UpsertAffects(lower, primed, rows);
    assert affected == (if row.id in primed then Members(primed[row.id]) else {}) + Members(RowTags(lower, row));
    if row.id.system == system {
      UpsertCovers(lower, tgs, db, system, rows);
    } else if row.tags.Some? && id in db {
      assert db2[id] == RowTags(lower, row);
      forall tag | tag in db[id] && tag !in db2[id]
        ensures tag in affected <==> row.id in db && tag in db[row.id]
      {
        assert row in rows;
      }
    }
  }

  /** The tags of the last row with tags that is written to a talkgroup. */
  function LastTags(lower: string -> string, system: int, rows: seq<Upsert>, id: ID): Option<seq<string>> {
    if rows == [] then None
    else
      var row := rows[|rows| - 1];
      if row.tags.Some? && Target(system, row) == id then Some(RowTags(lower, row))
      else LastTags(lower, system, rows[..|rows| - 1], id)
  }

  lemma {:induction false} UpsertLeaves(lower: string -> string, db: Tags, system: int, rows: seq<Upsert>, id: ID)
    requires id in UpsertedDB(lower, db, system, rows)
    ensures var last := LastTags(lower, system, rows, id);
            UpsertedDB(lower, db, system, rows)[id]
            == if last.Some? then last.value else if id in db then db[id] else []
  {
    if rows != [] {
      var init := rows[..|rows| - 1];
      if id in UpsertedDB(lower, db, system, init) {
        UpsertLeaves(lower, db, system, init, id);
      } else {
        NotWritten(lower, db, system, init, id);
      }
    }
  }

  lemma {:induction false} NotWritten(lower: string -> string, db: Tags, system: int, rows: seq<Upsert>, id: ID)
    requires id !in UpsertedDB(lower, db, system, rows)
    ensures LastTags(lower, system, rows, id).None? && id !in db
  {
    hide RowTags;
    if rows != [] {
      NotWritten(lower, db, system, rows[..|rows| - 1], id);
    }
  }

  /** Row k is the last with tags that is written to a talkgroup. */
  predicate WrittenLast(system: int, rows: seq<Upsert>, id: ID, k: nat) {
    k < |rows| && rows[k].tags.Some? && ID(system, rows[k].id.talkgroup) == id
    && forall j :: k < j < |rows| && rows[j].tags.Some? ==> ID(system, rows[j].id.talkgroup) != id
  }

  /** After a batch there are exactly the old talkgroups and those it was written to, under the system
      given. Each has the tags of the last row with tags that was written to it, each in lower case; without
      such a row, its old tags, or none when it is new. */
  lemma UpsertExactly(lower: string -> string, db: Tags, system: int, rows: seq<Upsert>, id: ID)
    ensures var r := UpsertedDB(lower, db, system, rows);
            (id in r <==> id in db || exists k :: 0 <= k < |rows| && ID(system, rows[k].id.talkgroup) == id)
            && (id in r ==>
                  (forall k: nat :: WrittenLast(system, rows, id, k) ==>
                     |r[id]| == |rows[k].tags.value|
                     && forall i :: 0 <= i < |r[id]| ==> r[id][i] == lower(rows[k].tags.value[i]))
                  && ((forall k: nat :: !WrittenLast(system, rows, id, k)) ==>
                        r[id] == if id in db then db[id] else []))
  {
    hide UpsertedDB, LastTags, RowTags;
    UpsertedKeys(lower, db, system, rows, id);
    LastIsWritten(lower, system, rows, id);
    if id in UpsertedDB(lower, db, system, rows) {
      UpsertLeaves(lower, db, system, rows, id);
      forall k: nat | WrittenLast(system, rows, id, k)
        ensures LastTags(lower, system, rows, id) == Some(RowTags(lower, rows[k]))
        ensures |RowTags(lower, rows[k])| == |rows[k].tags.value|
        ensures forall i :: 0 <= i < |rows[k].tags.value| ==>
          RowTags(lower, rows[k])[i] == lower(rows[k].tags.value[i])
      {
        RowTagsAre(lower, rows[k]);
      }
    }
  }

  lemma {:induction false} UpsertedKeys(lower: string -> string, db: Tags, system: int, rows: seq<Upsert>, id: ID)
    ensures id in UpsertedDB(lower, db, system, rows)
       <==> id in db || exists k :: 0 <= k < |rows| && ID(system, rows[k].id.talkgroup) == id
  {
    hide RowTags;
    if rows != [] {
      var n := |rows| - 1;
      UpsertedKeys(lower, db, system, rows[..n], id);
      assert forall k :: 0 <= k < n ==> rows[..n][k] == rows[k];
      assert forall k :: 0 <= k < |rows| ==> k == n || rows[..n][k] == rows[k];
    }
  }

  lemma {:induction false} LastIsWritten(lower: string -> string, system: int, rows: seq<Upsert>, id: ID)
    ensures LastTags(lower, system, rows, id).None? ==> forall k: nat :: !WrittenLast(system, rows, id, k)
    ensures forall k: nat :: WrittenLast(system, rows, id, k) ==>
      LastTags(lower, system, rows, id) == Some(RowTags(lower, rows[k]))
    ensures LastTags(lower, system, rows, id).Some? ==> exists k: nat :: WrittenLast(system, rows, id, k)
  {
    hide RowTags;
    if rows != [] {
      var n := |rows| - 1;
      var init := rows[..n];
      LastIsWritten(lower, system, init, id);
      forall k: nat | k < n
        ensures WrittenLast(system, rows, id, k)
           <==> WrittenLast(system, init, id, k) && !(rows[n].tags.Some? && Target(system, rows[n]) == id)
      {
        assert init[k] == rows[k];
        if WrittenLast(system, init, id, k) && !(rows[n].tags.Some? && Target(system, rows[n]) == id) {
          forall j | k < j < |rows| && rows[j].tags.Some? ensures ID(system, rows[j].id.talkgroup) != id {
            assert j < n ==> init[j] == rows[j];
          }
        }
        if WrittenLast(system, rows, id, k) {
          assert forall j :: k < j < n ==> init[j] == rows[j];
        }
      }
      if rows[n].tags.Some? && Target(system, rows[n]) == id {
        assert WrittenLast(system, rows, id, n);
      } else if LastTags(lower, system, init, id).Some? {
        var k: nat :| WrittenLast(system, init, id, k);
        assert WrittenLast(system, rows, id, k) && rows[k] == init[k];
      }
      forall k: nat | WrittenLast(system, rows, id, k)
        ensures LastTags(lower, system, rows, id) == Some(RowTags(lower, rows[k]))
      {
        if k < n {
          assert init[k] == rows[k];
        }
      }
    }
  }

  lemma RowTagsAre(lower: string -> string, row: Upsert)
    requires row.tags.Some?
    ensures |RowTags(lower, row)| == |row.tags.value|
    ensures forall i :: 0 <= i < |row.tags.value| ==> RowTags(lower, row)[i] == lower(row.tags.value[i])
  {
    LowerAt(lower, row.tags.value);
  }

  lemma {:induction false} LowerAt(lower: string -> string, tags: seq<string>)
    ensures forall i :: 0 <= i < |tags| ==> Lower(lower, tags)[i] == lower(tags[i])
  {
    if tags != [] {
      var init := tags[..|tags| - 1];
      LowerAt(lower, init);
      forall i | 0 <= i < |tags| ensures Lower(lower, tags)[i] == lower(tags[i]) {
        assert i < |init| ==> init[i] == tags[i];
      }
    }
  }

  /** A batch reports the tags of its rows and those of the talkgroups its rows name. */
  lemma {:induction false} AffectsAre(lower: string -> string, tgs: Tags, rows: seq<Upsert>, tag: string)
    ensures tag in UpsertAffects(lower, tgs, rows) <==>
      exists row :: row in rows && (tag in RowTags(lower, row) || (row.id in tgs && tag in tgs[row.id]))
  {
    hide RowTags;
    if rows != [] {
      var n := |rows| - 1;
      AffectsAre(lower, tgs, rows[..n], tag);
      assert forall row :: row in rows <==> row in rows[..n] || row == rows[n];
    }
  }

  /** A tag that a talkgroup has, and the last tags a batch writes to it lack. */
  predicate LosesTag(lower: string -> string, db: Tags, system: int, rows: seq<Upsert>, id: ID, tag: string) {
    id in db && tag in db[id]
    && var last := LastTags(lower, system, rows, id); last.Some? && tag !in last.value
  }

  /** A tag of some row, or of a talkgroup that some row names. */
  predicate Named(lower: string -> string, db: Tags, rows: seq<Upsert>, tag: string) {
    exists row :: row in rows && (tag in RowTags(lower, row) || (row.id in db && tag in db[row.id]))
  }

  /** For a batch, every lost tag is reported exactly when each tag that a talkgroup has, and the last tags
      written to it lack, is among the tags of some row or on a talkgroup that some row names. */
  lemma BatchCovers(lower: string -> string, tgs: Tags, db: Tags, system: int, rows: seq<Upsert>)
    requires CacheAgrees(tgs, db)
    ensures LosesOnly(db, UpsertedDB(lower, db, system, rows), UpsertAffects(lower, Primed(tgs, db, rows), rows))
       <==> forall id, tag :: LosesTag(lower, db, system, rows, id, tag) ==> Named(lower, db, rows, tag)
  {
    hide RowTags, UpsertAffects, LastTags, Primed, UpsertedDB;
    var db2, primed := UpsertedDB(lower, db, system, rows), Primed(tgs, db, rows);
    var affected := UpsertAffects(lower, primed, rows);
    PrimedAgrees(tgs, db, rows);
    forall id, tag
      ensures LosesTag(lower, db, system, rows, id, tag) <==> id in db && tag in db[id] && id in db2 && tag !in db2[id]
    {
      if id in db {
        assert id in db2 by {
          UpsertedKeys(lower, db, system, rows, id);
        }
        UpsertLeaves(lower, db, system, rows, id);
      }
    }
    forall tag ensures tag in affected <==> Named(lower, db, rows, tag) {
      AffectsAre(lower, primed, rows, tag);
      assert forall row :: row in rows ==> (row.id in primed <==> row.id in db);
    }
    if LosesOnly(db, db2, affected) {
      forall id, tag | LosesTag(lower, db, system, rows, id, tag) ensures Named(lower, db, rows, tag) {
        assert tag in affected;
      }
    } else {
      var id, tag :| id in db && tag in db[id] && id in db2 && tag !in db2[id] && tag !in affected;
      assert LosesTag(lower, db, system, rows, id, tag) && !Named(lower, db, rows, tag);
    }
  }

  /** A batch keeps a right cache right, and writes only tags it reports. */
  lemma BatchKeeps(lower: string -> string, tgs: Tags, db: Tags, system: int, rows: seq<Upsert>)
    ensures var primed, db2 := Primed(tgs, db, rows), UpsertedDB(lower, db, system, rows);
            var affected := UpsertAffects(lower, primed, rows);
            Writes(db, db2, affected)
            && (CacheAgrees(tgs, db) ==>
                  CacheAgrees(primed, db) && CacheAgrees(Added(primed, Results(lower, db, system, rows)), db2)
                  && ((forall row :: row in rows ==> row.id.system == system) ==> LosesOnly(db, db2, affected)))
  {
    hide Primed, UpsertedDB, UpsertAffects, Added, Results, CacheAgrees, Writes, LosesOnly;
    UpsertWrites(lower, Primed(tgs, db, rows), db, system, rows);
    if CacheAgrees(tgs, db) {
      PrimedAgrees(tgs, db, rows);
      ResultsAgree(lower, Primed(tgs, db, rows), db, system, rows);
      if forall row :: row in rows ==> row.id.system == system {
        UpsertCovers(lower, tgs, db, system, rows);
      }
    }
  }

  // ---- LearnTG --------------------------------------------------------------------------------------------------

  /** A learned talkgroup has no tags, and no filter changes. */
  lemma LearnedCovers(db: Tags, id: ID)
    requires id !in db
    ensures Writes(db, db[id := []], {}) && LosesOnly(db, db[id := []], {})
  {
    assert Members([]) == {};
  }
}
