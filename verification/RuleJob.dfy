/**
 A batch of S3 lifecycle-rule changes (ruleJob of pkg/calls/callstore/s3.go): rules are queued for
 addition and deletion, and the bucket's configuration is compacted in place at the commit.
 */
module RuleJobs {
  import opened GoStrings

  datatype Rule = Rule(id: string, status: string, prefix: string, filterPrefix: string,
                       days: int, deleteMarker: bool, noncurrentDays: int)

  const ZERO_RULE := Rule("", "", "", "", 0, false, 0)
  const MARKER := "_marker"

  function DelMarkerName(id: string): string {
    id + MARKER
  }

  function DelMarkerRule(r: Rule): Rule {
    r.(id := DelMarkerName(r.id), days := 0, deleteMarker := true)
  }

  function RuleID(prefix: string): string {
    "sb_" + TrimRight(prefix, '/')
  }

  // The job as a value: the rules it started from, the IDs in force, and the queued changes.
  datatype Job = Job(isB2: bool, legacyPrefix: bool, rules: seq<Rule>, ruleMap: map<string, Rule>, adds: seq<Rule>,
                     dels: set<string>) {

    predicate Has(id: string) {
      id in ruleMap
    }

    function Delete(id: string): Job {
      var j := this.(dels := dels + {id}, ruleMap := ruleMap - {id});
      var marker := DelMarkerName(id);
      if isB2 && marker in j.ruleMap then j.(dels := j.dels + {marker}, ruleMap := j.ruleMap - {marker}) else j
    }

    function Add(r: Rule): (j: (Job, bool)) {
      if r.id in ruleMap then (this, false)
      else if isB2 then
        var dmr := DelMarkerRule(r);
        var r' := r.(noncurrentDays := 1);
        (this.(ruleMap := ruleMap[dmr.id := dmr][r'.id := r'], adds := adds + [dmr, r']), true)
      else (this.(ruleMap := ruleMap[r.id := r], adds := adds + [r]), true)
    }

    function RmRule(prefix: string): Rule {
      Rule(RuleID(prefix), "Enabled", if legacyPrefix then prefix else "", if legacyPrefix then "" else prefix, 1,
           false, 0)
    }

    /** The configuration the job commits. */
    function Config(): seq<Rule> {
      Kept(rules, dels) + adds
    }

    predicate Changed() {
      adds != [] || dels != {}
    }
  }

  /** The rules whose IDs are not deleted, in order. */
  function Kept(rules: seq<Rule>, dels: set<string>): (r: seq<Rule>)
    ensures |r| <= |rules|
  {
    if rules == [] then []
    else Kept(rules[..|rules| - 1], dels) + (if rules[|rules| - 1].id in dels then [] else [rules[|rules| - 1]])
  }

  lemma {:induction false} KeptMembers(rules: seq<Rule>, dels: set<string>)
    ensures forall x :: x in Kept(rules, dels) <==> x in rules && x.id !in dels
  {
    if rules != [] {
      var init := rules[..|rules| - 1];
      KeptMembers(init, dels);
      assert rules == init + [rules[|rules| - 1]];
    }
  }

  lemma KeptNone(dels: set<string>)
    ensures Kept([], dels) == []
  {}

  lemma KeptStep(rules: seq<Rule>, k: nat, dels: set<string>)
    requires k < |rules|
    ensures Kept(rules[..k + 1], dels) == Kept(rules[..k], dels) + (if rules[k].id in dels then [] else [rules[k]])
  {
    assert rules[..k + 1][..k] == rules[..k];
  }

  function MapOf(rules: seq<Rule>): (m: map<string, Rule>)
    ensures forall id :: id in m <==> id in Ids(rules)
  {
    if rules == [] then map[] else MapOf(rules[..|rules| - 1])[rules[|rules| - 1].id := rules[|rules| - 1]]
  }

  function Ids(rules: seq<Rule>): set<string> {
    set r | r in rules :: r.id
  }

  predicate Distinct(rules: seq<Rule>) {
    forall i, j :: 0 <= i < j < |rules| ==> rules[i].id != rules[j].id
  }

  function NewJob(isB2: bool, legacyPrefix: bool, rules: seq<Rule>): Job {
    Job(isB2, legacyPrefix, rules, MapOf(rules), [], {})
  }

  // ---- The class ---------------------------------------------------------------------------------------

  class RuleJob {
    const isB2: bool
    const legacyPrefix: bool
    var rules: array<Rule>
    var ruleMap: map<string, Rule>
    var adds: seq<Rule>
    var dels: set<string>

    ghost function Abs(): Job
      reads this, rules
    {
      Job(isB2, legacyPrefix, rules[..], ruleMap, adds, dels)
    }

    /** newRuleJob, on the bucket's present rules. */
    constructor (isB2: bool, legacyPrefix: bool, bucket: seq<Rule>)
      ensures Abs() == NewJob(isB2, legacyPrefix, bucket)
      ensures fresh(rules)
    {
      this.isB2 := isB2;
      this.legacyPrefix := legacyPrefix;
      ruleMap := map[];
      adds := [];
      dels := {};
      var a := new Rule[|bucket|](i requires 0 <= i < |bucket| => bucket[i]);
      rules := a;
      new;
      assert rules[..] == bucket;
      for i := 0 to |bucket|
        invariant ruleMap == MapOf(bucket[..i])
        invariant rules == a && fresh(a) && a[..] == bucket && adds == [] && dels == {}
      {
        assert bucket[..i + 1][..i] == bucket[..i];
        ruleMap := ruleMap[bucket[i].id := bucket[i]];
      }
      assert bucket[..|bucket|] == bucket;
    }

    method Delete(id: string)
      modifies this`dels, this`ruleMap
      ensures Abs() == old(Abs()).Delete(id)
    {
      dels := dels + {id};
      ruleMap := ruleMap - {id};
      if isB2 {
        var dmn := DelMarkerName(id);
        if dmn in ruleMap {
          dels := dels + {DelMarkerName(id)};
          ruleMap := ruleMap - {DelMarkerName(id)};
        }
      }
    }

    method Add(rule: Rule) returns (ok: bool)
      modifies this`adds, this`ruleMap
      ensures (Abs(), ok) == old(Abs()).Add(rule)
    {
      var r := rule;
      if r.id in ruleMap {
        return false;
      }
      if isB2 {
        var dmr := DelMarkerRule(r);
        r := r.(noncurrentDays := 1);
        ruleMap := ruleMap[dmr.id := dmr];
        adds := adds + [dmr];
        assert adds + [r] == old(adds) + [dmr, r];
      }
      ruleMap := ruleMap[r.id := r];
      adds := adds + [r];
      ok := true;
    }

    method AddRmRule(prefix: string) returns (ok: bool)
      modifies this`adds, this`ruleMap
      ensures (Abs(), ok) == old(Abs()).Add(old(Abs()).RmRule(prefix))
    {
      var lr := Rule(RuleID(prefix), "Enabled", "", "", 1, false, 0);
      if legacyPrefix {
        lr := lr.(prefix := prefix);
      } else {
        lr := lr.(filterPrefix := prefix);
      }
      ok := Add(lr);
    }

    method PruneRmRule(refPath: string)
      modifies this`dels, this`ruleMap
      ensures Abs() == old(Abs()).Delete(RuleID(refPath))
    {
      Delete(RuleID(refPath));
    }

    /** lifecycleConfig: compacts the rules in place, erases the rest, and appends the additions. */
    method LifecycleConfig() returns (config: seq<Rule>)
      modifies this`rules, rules
      ensures config == old(Abs()).Config() == rules[..]
      ensures unchanged(this`ruleMap, this`adds, this`dels)
    {
      hide Kept;
      ghost var rs := rules[..];
      KeptNone(dels);
      assert rs[..0] == [] && rules[..0] == [];
      var i := 0;
      for k := 0 to rules.Length
        invariant 0 <= i <= k && rules == old(rules)
        invariant rules[..i] == Kept(rs[..k], dels)
        invariant forall j :: k <= j < rules.Length ==> rules[j] == rs[j]
        invariant unchanged(this)
      {
        KeptStep(rs, k, dels);
        var r := rules[k];
        if r.id !in dels {
          rules[i] := r;
          assert rules[..i + 1] == rules[..i] + [r];
          i := i + 1;
        }
      }
      assert rs[..rules.Length] == rs;
      for j := i to rules.Length
        invariant rules == old(rules) && rules[..i] == Kept(rs, dels) && unchanged(this)
      {
        rules[j] := ZERO_RULE;
      }
      config := rules[..i] + adds;
      rules := new Rule[|config|](n requires 0 <= n < |config| => config[n]);
    }
  }

  // ---- The rule that removes a prefix ------------------------------------------------------------------------

  /** The rule is in force for a prefix, given in the field that the bucket's kind looks at. */
  predicate For(j: Job, r: Rule, prefix: string) {
    r.status == "Enabled" && r.prefix == (if j.legacyPrefix then prefix else "")
    && r.filterPrefix == (if j.legacyPrefix then "" else prefix)
  }

  /** The rules that remove what lies under a prefix: one of the prefix's ID that expires it after a day;
      on B2 that one also expires versions no longer current, and a marker rule before it expires delete
      markers instead. */
  predicate Removal(j: Job, prefix: string, added: seq<Rule>) {
    var id := "sb_" + TrimRight(prefix, '/');
    |added| == (if j.isB2 then 2 else 1)
    && (var r := added[|added| - 1];
        For(j, r, prefix) && r.id == id && r.days == 1 && !r.deleteMarker
        && r.noncurrentDays == (if j.isB2 then 1 else 0))
    && (j.isB2 ==>
          For(j, added[0], prefix) && added[0].id == id + "_marker" && added[0].days == 0 && added[0].deleteMarker
          && added[0].noncurrentDays == 0)
  }

  /** A job that does not know a prefix's rule yet then commits its removal rules, after all that it would
      commit anyway, and knows their IDs; another refuses. */
  lemma AddedRuleRemoves(j: Job, prefix: string)
    ensures var (j', ok) := j.Add(j.RmRule(prefix));
            (ok <==> "sb_" + TrimRight(prefix, '/') !in j.ruleMap)
            && (if ok then
                  exists added :: Removal(j, prefix, added) && j'.Config() == j.Config() + added
                                  && j'.ruleMap.Keys == j.ruleMap.Keys + Ids(added)
                else j' == j)
  {
    hide Kept, TrimRight;
    var r := j.RmRule(prefix);
    if r.id !in j.ruleMap {
      var added := if j.isB2 then [DelMarkerRule(r), r.(noncurrentDays := 1)] else [r];
      AddedToConfig(j, r, added);
      assert Removal(j, prefix, added);
    }
  }

  lemma AddedToConfig(j: Job, r: Rule, added: seq<Rule>)
    requires r.id !in j.ruleMap && added == if j.isB2 then [DelMarkerRule(r), r.(noncurrentDays := 1)] else [r]
    ensures var j' := j.Add(r).0;
            j'.Config() == j.Config() + added && j'.ruleMap.Keys == j.ruleMap.Keys + Ids(added)
  {
    hide Kept, DelMarkerName;
    assert j.Add(r).0.adds == j.adds + added;
    assert added[0] in added && added[|added| - 1] in added;
    assert Ids(added) == {added[0].id, added[|added| - 1].id};
  }

  /** On a prefix with one closing slash the ID is the prefix without it. */
  lemma RuleIDOf(prefix: string)
    requires OneSlash(prefix)
    ensures RuleID(prefix) + "/" == "sb_" + prefix
  {
    TrimOne(prefix);
    assert "sb_" + TrimRight(prefix, '/') + "/" == "sb_" + (TrimRight(prefix, '/') + "/");
  }

  // ---- Every sequence of changes ------------------------------------------------------------------------------

  // The IDs the callers make: their own, and none that looks like a marker.
  predicate Plain(id: string) {
    HasPrefix(id, "sb_") && !HasSuffix(id, MARKER)
  }

  /** On B2 every own rule is in force together with its marker. */
  ghost predicate Paired(ids: set<string>) {
    forall id :: Plain(id) ==> (id in ids <==> DelMarkerName(id) in ids)
  }

  /** The committed rules would be the rules in force: one per ID, the same ones as the map has. */
  ghost predicate Consistent(j: Job) {
    Distinct(j.Config()) && MapOf(j.Config()) == j.ruleMap
    && (j.isB2 ==> Paired(j.ruleMap.Keys))
  }

  lemma {:induction false} MapOfDistinct(rules: seq<Rule>, r: Rule)
    requires Distinct(rules) && r in rules
    ensures MapOf(rules)[r.id] == r
  {
    if r != rules[|rules| - 1] {
      var i :| 0 <= i < |rules| && rules[i] == r;
      assert r in rules[..|rules| - 1];
      MapOfDistinct(rules[..|rules| - 1], r);
    }
  }

  /** A map of distinct rules is known by its entries. */
  lemma MapOfIs(rules: seq<Rule>, m: map<string, Rule>)
    requires Distinct(rules) && m.Keys == Ids(rules)
    requires forall r :: r in rules ==> r.id in m && m[r.id] == r
    ensures MapOf(rules) == m
  {
    forall id | id in m ensures MapOf(rules)[id] == m[id] {
      var r :| r in rules && r.id == id;
      MapOfDistinct(rules, r);
    }
  }

  lemma MapOfHas(rules: seq<Rule>, r: Rule)
    requires Distinct(rules) && r in rules
    ensures r.id in MapOf(rules) && MapOf(rules)[r.id] == r
  {
    MapOfDistinct(rules, r);
  }

  lemma {:induction false} MapOfAppend(rules: seq<Rule>, r: Rule)
    ensures MapOf(rules + [r]) == MapOf(rules)[r.id := r]
    ensures Ids(rules + [r]) == Ids(rules) + {r.id}
  {
    assert (rules + [r])[..|rules|] == rules;
  }

  /** One more rule of a new ID keeps the rules distinct, and is one more in their map. */
  lemma AppendNew(rules: seq<Rule>, m: map<string, Rule>, r: Rule)
    requires Distinct(rules) && MapOf(rules) == m && r.id !in m
    ensures Distinct(rules + [r]) && MapOf(rules + [r]) == m[r.id := r]
  {
    MapOfAppend(rules, r);
    forall i | 0 <= i < |rules| ensures rules[i].id != r.id {
      assert rules[i] in rules;
    }
  }

  /** Queueing an addition keeps the job consistent. */
  lemma AddConsistent(j: Job, r: Rule)
    requires Consistent(j) && Plain(r.id)
    ensures Consistent(j.Add(r).0)
    ensures j.Add(r).1 <==> r.id !in j.ruleMap
  {
    hide Kept, MapOf, Plain;
    if r.id !in j.ruleMap {
      if j.isB2 {
        AddPairConsistent(j, r);
      } else {
        var c := j.Config();
        AppendNew(c, j.ruleMap, r);
        assert j.Add(r).0.Config() == c + [r];
      }
    }
  }

  lemma PairedAt(ids: set<string>, id: string)
    requires Paired(ids) && Plain(id)
    ensures id in ids <==> DelMarkerName(id) in ids
  {}

  lemma AddPairConsistent(j: Job, r: Rule)
    requires Consistent(j) && Plain(r.id) && j.isB2 && r.id !in j.ruleMap
    ensures Consistent(j.Add(r).0)
  {
    hide Kept, MapOf, Plain, Paired, DelMarkerName, HasSuffix, Distinct, Ids;
    PairedAt(j.ruleMap.Keys, r.id);
    var c := j.Config();
    var dmr, r' := DelMarkerRule(r), r.(noncurrentDays := 1);
    assert DelMarkerName(r.id) !in j.ruleMap.Keys;
    MarkerDiffers(r.id);
    AppendNew(c, j.ruleMap, dmr);
    AppendNew(c + [dmr], j.ruleMap[dmr.id := dmr], r');
    assert j.Add(r).0.Config() == c + [dmr] + [r'];
    AddPairs(j.ruleMap.Keys, r.id);
    assert j.Add(r).0.ruleMap.Keys == j.ruleMap.Keys + {r.id, DelMarkerName(r.id)};
  }

  lemma MarkerDiffers(id: string)
    ensures DelMarkerName(id) != id && HasSuffix(DelMarkerName(id), MARKER)
  {
    assert |DelMarkerName(id)| == |id| + 7;
  }

  lemma MarkerNotPlain(id: string)
    ensures !Plain(DelMarkerName(id))
  {
    MarkerDiffers(id);
  }

  lemma MarkerInjective(a: string, b: string)
    requires DelMarkerName(a) == DelMarkerName(b)
    ensures a == b
  {
    assert a == DelMarkerName(a)[..|a|] && b == DelMarkerName(b)[..|b|];
  }

  lemma AddPairs(ids: set<string>, id: string)
    requires Paired(ids) && Plain(id)
    ensures Paired(ids + {id, DelMarkerName(id)})
  {
    forall x | Plain(x)
      ensures x in ids + {id, DelMarkerName(id)} <==> DelMarkerName(x) in ids + {id, DelMarkerName(id)}
    {
      MarkerDiffers(id);
      MarkerDiffers(x);
      if DelMarkerName(x) == DelMarkerName(id) {
        MarkerInjective(x, id);
      }
    }
  }

  lemma DeletePairs(ids: set<string>, id: string)
    requires Paired(ids) && Plain(id)
    ensures Paired(ids - {id, DelMarkerName(id)})
  {
    forall x | Plain(x)
      ensures x in ids - {id, DelMarkerName(id)} <==> DelMarkerName(x) in ids - {id, DelMarkerName(id)}
    {
      MarkerDiffers(id);
      MarkerDiffers(x);
      if DelMarkerName(x) == DelMarkerName(id) {
        MarkerInjective(x, id);
      }
    }
  }

  lemma {:induction false} KeptDistinct(rules: seq<Rule>, dels: set<string>)
    requires Distinct(rules)
    ensures Distinct(Kept(rules, dels))
  {
    if rules != [] {
      var init, r := rules[..|rules| - 1], rules[|rules| - 1];
      KeptDistinct(init, dels);
      KeptMembers(init, dels);
      forall x | x in Kept(init, dels) ensures x.id != r.id {
        var i :| 0 <= i < |init| && init[i] == x;
      }
    }
  }

  lemma {:induction false} KeptTwice(rules: seq<Rule>, a: set<string>, b: set<string>)
    ensures Kept(Kept(rules, a), b) == Kept(rules, a + b)
  {
    if rules != [] {
      var init, r := rules[..|rules| - 1], rules[|rules| - 1];
      KeptTwice(init, a, b);
      var k := Kept(init, a);
      if r.id !in a {
        assert (k + [r])[..|k|] == k;
      } else {
        assert k + [] == k;
      }
    }
  }

  lemma {:induction false} KeptAppend(x: seq<Rule>, y: seq<Rule>, dels: set<string>)
    ensures Kept(x + y, dels) == Kept(x, dels) + Kept(y, dels)
  {
    if y == [] {
      assert x + y == x;
    } else {
      var init := y[..|y| - 1];
      KeptAppend(x, init, dels);
      assert (x + y)[..|x + y| - 1] == x + init;
    }
  }

  lemma {:induction false} KeptAll(rules: seq<Rule>, dels: set<string>)
    requires Ids(rules) !! dels
    ensures Kept(rules, dels) == rules
  {
    if rules != [] {
      var init, r := rules[..|rules| - 1], rules[|rules| - 1];
      assert Ids(rules) == Ids(init) + {r.id} by {
        assert rules == init + [r];
      }
      KeptAll(init, dels);
    }
  }

  /** The IDs a deletion removes. */
  function Gone(j: Job, id: string): set<string> {
    if j.isB2 && DelMarkerName(id) in j.ruleMap then {id, DelMarkerName(id)} else {id}
  }

  lemma DeleteShape(j: Job, id: string)
    ensures j.Delete(id) == j.(dels := j.dels + Gone(j, id), ruleMap := j.ruleMap - Gone(j, id))
  {
    MarkerDiffers(id);
    assert j.ruleMap - {id} - {DelMarkerName(id)} == j.ruleMap - {id, DelMarkerName(id)};
    assert j.dels + {id} + {DelMarkerName(id)} == j.dels + {id, DelMarkerName(id)};
  }

  /** Queueing a deletion keeps the job consistent exactly when the rule was not added by the same
      job: an added rule would still be committed. */
  lemma DeleteConsistent(j: Job, id: string)
    requires Consistent(j) && Plain(id)
    requires j.isB2 ==> (id in Ids(j.adds) <==> DelMarkerName(id) in Ids(j.adds))
    ensures Consistent(j.Delete(id)) <==> id !in Ids(j.adds)
  {
    hide Kept, MapOf, Plain;
    DeleteShape(j, id);
    if id !in Ids(j.adds) {
      DeleteKeeps(j, id);
    } else {
      var d := j.Delete(id);
      var r :| r in j.adds && r.id == id;
      assert r in d.Config();
      assert id in MapOf(d.Config()) && id !in d.ruleMap;
    }
  }

  lemma DeleteKeeps(j: Job, id: string)
    requires Consistent(j) && Plain(id) && id !in Ids(j.adds)
    requires j.isB2 ==> DelMarkerName(id) !in Ids(j.adds)
    ensures Consistent(j.Delete(id))
  {
    hide Kept, MapOf, Plain;
    var d, gone := j.Delete(id), Gone(j, id);
    DeleteShape(j, id);
    DeleteConfig(j, id);
    KeptDistinct(j.Config(), gone);
    KeptMembers(j.Config(), gone);
    forall r | r in d.Config() ensures r.id in d.ruleMap && d.ruleMap[r.id] == r {
      MapOfHas(j.Config(), r);
    }
    forall x | x in d.ruleMap.Keys ensures x in Ids(d.Config()) {
      assert x in j.ruleMap.Keys && x in Ids(j.Config());
      var r :| r in j.Config() && r.id == x;
      assert r in d.Config();
    }
    MapOfIs(d.Config(), d.ruleMap);
    if j.isB2 {
      DeletePairs(j.ruleMap.Keys, id);
      assert d.ruleMap.Keys == j.ruleMap.Keys - {id, DelMarkerName(id)};
    }
  }

  lemma DeleteConfig(j: Job, id: string)
    requires id !in Ids(j.adds) && (j.isB2 ==> DelMarkerName(id) !in Ids(j.adds))
    ensures j.Delete(id).Config() == Kept(j.Config(), Gone(j, id))
  {
    hide Kept;
    DeleteShape(j, id);
    KeptAll(j.adds, Gone(j, id));
    KeptTwice(j.rules, j.dels, Gone(j, id));
    KeptAppend(Kept(j.rules, j.dels), j.adds, Gone(j, id));
  }

  datatype Op = AddOp(rule: Rule) | DeleteOp(id: string)

  function OpID(op: Op): string {
    match op case AddOp(r) => r.id case DeleteOp(id) => id
  }

  function Apply(j: Job, op: Op): Job {
    match op case AddOp(r) => j.Add(r).0 case DeleteOp(id) => j.Delete(id)
  }

  function ApplyAll(j: Job, ops: seq<Op>): Job {
    if ops == [] then j else Apply(ApplyAll(j, ops[..|ops| - 1]), ops[|ops| - 1])
  }

  /** No ID is deleted after the same job added it. */
  predicate NoAddThenDelete(ops: seq<Op>) {
    forall i, k :: 0 <= i < k < |ops| && ops[i].AddOp? && ops[k].DeleteOp? ==> ops[i].rule.id != ops[k].id
  }

  /** Added IDs come from the additions, each with its marker on B2. */
  ghost predicate AddsFrom(j: Job, ops: seq<Op>) {
    (forall id :: Plain(id) && id in Ids(j.adds) ==>
      exists i :: 0 <= i < |ops| && ops[i].AddOp? && ops[i].rule.id == id)
    && (j.isB2 ==> Paired(Ids(j.adds)))
  }

  lemma AddsFromStep(j: Job, ops: seq<Op>)
    requires ops != [] && Plain(OpID(ops[|ops| - 1])) && AddsFrom(j, ops[..|ops| - 1])
    ensures AddsFrom(Apply(j, ops[|ops| - 1]), ops)
  {
    hide Kept, MapOf, Plain, Paired, HasSuffix, DelMarkerName;
    var op, init := ops[|ops| - 1], ops[..|ops| - 1];
    var j' := Apply(j, op);
    DeleteShape(j, OpID(op));
    if op.AddOp? && op.rule.id !in j.ruleMap {
      var id := op.rule.id;
      MarkerNotPlain(id);
      assert Ids(j'.adds) == Ids(j.adds) + (if j.isB2 then {id, DelMarkerName(id)} else {id});
      forall x | Plain(x) && x in Ids(j'.adds)
        ensures exists i :: 0 <= i < |ops| && ops[i].AddOp? && ops[i].rule.id == x
      {
        if x in Ids(j.adds) {
          var i :| 0 <= i < |init| && init[i].AddOp? && init[i].rule.id == x;
          assert ops[i] == init[i];
        } else {
          assert ops[|ops| - 1].rule.id == x;
        }
      }
      if j.isB2 {
        AddPairs(Ids(j.adds), id);
      }
    } else {
      assert j'.adds == j.adds;
      forall x | Plain(x) && x in Ids(j'.adds)
        ensures exists i :: 0 <= i < |ops| && ops[i].AddOp? && ops[i].rule.id == x
      {
        var i :| 0 <= i < |init| && init[i].AddOp? && init[i].rule.id == x;
        assert ops[i] == init[i];
      }
    }
  }

  /** Over every sequence of changes in one job that deletes nothing it added, the configuration to
      commit is the original rules in order without the deleted, then the added; IDs are unique and
      those of the map; and on B2 every own rule is paired with its marker. */
  lemma {:induction false} JobStaysConsistent(isB2: bool, legacyPrefix: bool, bucket: seq<Rule>, ops: seq<Op>)
    requires Distinct(bucket) && (isB2 ==> Paired(Ids(bucket)))
    requires forall i :: 0 <= i < |ops| ==> Plain(OpID(ops[i]))
    requires NoAddThenDelete(ops)
    ensures var j := ApplyAll(NewJob(isB2, legacyPrefix, bucket), ops);
            Consistent(j) && AddsFrom(j, ops) && j.isB2 == isB2 && j.rules == bucket
  {
    var j0 := NewJob(isB2, legacyPrefix, bucket);
    if ops == [] {
      KeptAll(bucket, {});
      assert j0.Config() == bucket;
      assert j0.ruleMap.Keys == Ids(bucket);
    } else {
      var init, op := ops[..|ops| - 1], ops[|ops| - 1];
      JobStaysConsistent(isB2, legacyPrefix, bucket, init);
      var j := ApplyAll(j0, init);
      AddsFromStep(j, ops);
      if op.AddOp? {
        AddConsistent(j, op.rule);
      } else {
        DeleteShape(j, op.id);
        DeleteConsistent(j, op.id);
      }
    }
  }

  /** RuleID tells prefixes with one closing slash apart. */
  lemma RuleIDInjective(a: string, b: string)
    requires OneSlash(a) && OneSlash(b) && RuleID(a) == RuleID(b)
    ensures a == b
  {
    assert TrimRight(a, '/') == RuleID(a)[3..] && TrimRight(b, '/') == RuleID(b)[3..];
    TrimOne(a);
    TrimOne(b);
  }

  /** A prefix that ends in exactly one slash. */
  predicate OneSlash(s: string) {
    |s| >= 2 && s[|s| - 1] == '/' && s[|s| - 2] != '/'
  }

  lemma TrimOne(s: string)
    requires OneSlash(s)
    ensures TrimRight(s, '/') + "/" == s
  {
    var t := s[..|s| - 1];
    assert t[|t| - 1] != '/';
    assert TrimRight(t, '/') == t;
    assert t + "/" == s;
  }
}
