/**
 Where call audio lives (pkg/calls/callstore/audio.go): the path an object is stored under, the
 reference kept in the database, and the way back from one to the other.
 */
module AudioPaths {
  import opened CivilTime
  import opened Intervals
  import opened GoStrings
  import opened PartitionNames

  datatype AudioRef = AbsoluteRef(path: string) | PartitionRelativeRef(path: string) {

    /** The object a reference names, for a call at a time. Without a partition manager a
        relative reference is its own path. */
    function Ref(partman: Option<Interval>, callTime: Time): string {
      if AbsoluteRef? || partman.None? then path
      else PartitionNames.PartitionPrefix(partman.value, callTime) + "/" + path
    }

    function String(): string {
      if AbsoluteRef? then path else "_/" + path
    }
  }

  function MakeAudioRef(s: string): (r: AudioRef) {
    if HasPrefix(s, "_/") then PartitionRelativeRef(s[2..]) else AbsoluteRef(s)
  }

  predicate IsHex(c: char) {
    '0' <= c <= '9' || 'a' <= c <= 'f'
  }

  /** The printed form of a UUID: lower-case hexadecimal digits and dashes. */
  predicate IsUUID(s: string) {
    |s| == 36 && IsHex(s[0]) && forall i :: 0 <= i < |s| ==> IsHex(s[i]) || s[i] == '-'
  }

  function BlobName(id: string, name: Option<string>): string {
    id + (if name.Some? then "_" + name.value else "")
  }

  function BlobPath(partman: Option<Interval>, id: string, name: Option<string>, callTime: Time): (r: (string, string))
    requires |id| >= 3
  {
    var prefix := if partman.Some? then PartitionNames.PartitionPrefix(partman.value, callTime) + "/" else "";
    var audPath := id[0..2] + "/" + id[2..3] + "/" + BlobName(id, name);
    if prefix != "" then (prefix + audPath, "_/" + audPath) else (audPath, audPath)
  }

  /** What follows the last slash. */
  function LastElement(s: string): (r: string)
    ensures |r| <= |s| && Free(r, '/')
  {
    if s == "" || s[|s| - 1] == '/' then "" else LastElement(s[..|s| - 1]) + [s[|s| - 1]]
  }

  /** path.Base: the last element, after closing slashes are cut off. */
  function Base(path: string): string {
    if path == "" then "."
    else
      var s := TrimRight(path, '/');
      if s == "" then "/" else LastElement(s)
  }

  /** strings.Cut at the first underscore: what comes before it. */
  function Head(s: string): string {
    s[..FirstFrom(s, "_", 0)]
  }

  /** The UUID text that CallIDFromBlobPath parses. */
  function CallIDFromBlobPath(path: string): string {
    Head(Base(path))
  }

  /** A stored reference leads back to the path the object was stored under. */
  lemma RefLeadsBack(partman: Option<Interval>, id: string, name: Option<string>, callTime: Time)
    requires IsUUID(id)
    ensures var (audioPath, audioRef) := BlobPath(partman, id, name, callTime);
            MakeAudioRef(audioRef).Ref(partman, callTime) == audioPath
            && MakeAudioRef(MakeAudioRef(audioRef).String()) == MakeAudioRef(audioRef)
  {
    hide PartitionNames.PartitionPrefix;
    var (audioPath, audioRef) := BlobPath(partman, id, name, callTime);
    var audPath := id[0..2] + "/" + id[2..3] + "/" + BlobName(id, name);
    assert audPath[0] == id[0];
    assert audioRef[0] == if partman.Some? then '_' else id[0];
    assert ("_/" + audPath)[2..] == audPath;
    if partman.Some? {
      var pre := PartitionNames.PartitionPrefix(partman.value, callTime);
      assert pre + "/" + audPath == (pre + "/") + audPath;
    }
  }

  /** An object lies under the prefix that pruning a partition deletes exactly when its call lies
      in the partition's range. */
  lemma PrunedPrefixHoldsCall(schema: string, iv: Interval, k: int, t: Time, id: string, name: Option<string>)
    requires k >= FirstIndex(iv) && ValidTime(t) && IsUUID(id)
    ensures var p := NewPartition(schema, iv, StartTime(iv, k));
            var (lower, upper) := Bounds(iv, p.time);
            |Split(p.name, "calls_p_")| == 2
            && (HasPrefix(BlobPath(Some(iv), id, name, t).0, Prefix(p) + "/")
                <==> AtOrBefore(lower, t) && StrictlyBefore(t, upper) && PrintsAlike(iv, t))
  {
    hide PartitionNames.PartitionPrefix, PartitionNames.NewPartition, Intervals.Bounds, GoStrings.Split,
         Intervals.Start,
         PartitionNames.PrintsAlike, PartitionNames.Render, PartitionNames.Fields, GoStrings.HasPrefix, Intervals.Index;
    var s := StartTime(iv, k);
    var p := NewPartition(schema, iv, s);
    FirstStart(iv, k);
    PrefixMeansRange(schema, iv, k, t);
    PrefixAsRender(schema, iv, s);
    PrefixIsRender(iv, t);
    FieldsPrintable(iv, s);
    FieldsPrintable(iv, t);
    SplitRender(iv, Fields(iv, s), 0);
    SplitRender(iv, Fields(iv, t), 4);
    var audPath := id[0..2] + "/" + id[2..3] + "/" + BlobName(id, name);
    var pre := PartitionPrefix(iv, t);
    assert BlobPath(Some(iv), id, name, t).0 == pre + "/" + audPath;
    PrefixAtSlash(pre, audPath, Prefix(p), '/');
  }

  lemma {:induction false} LastAfterSlash(a: string, b: string)
    requires Free(b, '/')
    ensures LastElement(a + "/" + b) == b
  {
    var s := a + "/" + b;
    if b == "" {
      assert s[|s| - 1] == '/';
    } else {
      var c := b[..|b| - 1];
      LastAfterSlash(a, c);
      assert s[..|s| - 1] == a + "/" + c && s[|s| - 1] == b[|b| - 1];
      assert b == c + [b[|b| - 1]];
    }
  }

  lemma {:induction false} LastOfTail(a: string, m: string)
    requires !Free(m, '/')
    ensures LastElement(a + m) == LastElement(m)
  {
    var s := a + m;
    assert s[|s| - 1] == m[|m| - 1];
    if m[|m| - 1] != '/' {
      LastOfTail(a, m[..|m| - 1]);
      assert s[..|s| - 1] == a + m[..|m| - 1];
    }
  }

  lemma {:induction false} TrimTail(a: string, n: string)
    requires a != "" && a[|a| - 1] != '/'
    ensures TrimRight(a + n, '/') == a + TrimRight(n, '/')
  {
    if n == "" {
      assert a + n == a;
    } else if n[|n| - 1] == '/' {
      TrimTail(a, n[..|n| - 1]);
      assert (a + n)[..|a + n| - 1] == a + n[..|n| - 1];
    }
  }

  lemma HeadOfBlob(id: string, rest: string)
    requires IsUUID(id)
    ensures Head(id + "_" + rest) == id && Head(id) == id
  {
    var s := id + "_" + rest;
    assert s[36..36 + 1] == "_";
    assert OccursAt(s, "_", 36);
    var i, j := FirstFrom(s, "_", 0), FirstFrom(id, "_", 0);
    OccursFirst(s, "_", i);
    if j < |id| {
      OccursFirst(id, "_", j);
    }
    assert i == 36 && j == 36;
  }

  /** CallIDFromBlobPath is the dual of BlobPath exactly when the call has no audio name, or the name,
      closing slashes aside, has no slash, or its last element starts with the very ID. */
  lemma CallIDComesBack(partman: Option<Interval>, id: string, name: Option<string>, callTime: Time)
    requires IsUUID(id)
    ensures CallIDFromBlobPath(BlobPath(partman, id, name, callTime).0) == id
       <==> name.None? || var n := TrimRight(name.value, '/'); Free(n, '/') || Head(LastElement(n)) == id
  {
    hide PartitionNames.PartitionPrefix, CallIDFromBlobPath;
    var base := BlobName(id, name);
    var pre := if partman.Some? then PartitionNames.PartitionPrefix(partman.value, callTime) + "/" else "";
    var dir := pre + id[0..2] + "/" + id[2..3];
    assert BlobPath(partman, id, name, callTime).0 == dir + "/" + base;
    CallIDOfBase(dir, id, name);
  }

  lemma CallIDOfBase(dir: string, id: string, name: Option<string>)
    requires IsUUID(id)
    ensures CallIDFromBlobPath(dir + "/" + BlobName(id, name)) == id
       <==> name.None? || var n := TrimRight(name.value, '/'); Free(n, '/') || Head(LastElement(n)) == id
  {
    hide CallIDFromBlobPath, Head, LastElement, IsUUID, TrimRight, Free;
    if name.None? {
      assert BlobName(id, name) == id;
      BareBase(dir, id);
    } else {
      assert BlobName(id, name) == id + "_" + name.value;
      NamedBase(dir, id, name.value);
    }
  }

  lemma BareBase(dir: string, id: string)
    requires IsUUID(id)
    ensures CallIDFromBlobPath(dir + "/" + id) == id
  {
    hide Head, LastElement, IsUUID, Free;
    UUIDsAreFree(id);
    var path := dir + "/" + id;
    assert path[|path| - 1] == id[35];
    LastAfterSlash(dir, id);
    HeadOfBlob(id, "");
  }

  lemma NamedBase(dir: string, id: string, name: string)
    requires IsUUID(id)
    ensures var n := TrimRight(name, '/');
            CallIDFromBlobPath(dir + "/" + (id + "_" + name)) == id <==> Free(n, '/') || Head(LastElement(n)) == id
  {
    hide Head, LastElement, IsUUID, TrimRight, Free;
    UUIDsAreFree(id);
    var n, a := TrimRight(name, '/'), dir + "/" + id + "_";
    assert dir + "/" + (id + "_" + name) == a + name;
    TrimTail(a, name);
    if Free(n, '/') {
      FreeBlob(id, n);
      assert a + n == dir + "/" + (id + "_" + n);
      LastAfterSlash(dir, id + "_" + n);
      HeadOfBlob(id, n);
    } else {
      LastOfTail(a, n);
    }
  }

  lemma FreeBlob(id: string, n: string)
    requires Free(id, '/') && Free(n, '/')
    ensures Free(id + "_" + n, '/')
  {}

  lemma UUIDsAreFree(id: string)
    requires IsUUID(id)
    ensures Free(id, '/') && |id| == 36 && id[35] != '/'
  {}

  /** Calls of different IDs never share an object path, whatever their names and dates. */
  lemma PathsDiffer(partman: Option<Interval>, a: string, nameA: Option<string>, timeA: Time, b: string,
                    nameB: Option<string>,
                    timeB: Time)
    requires IsUUID(a) && IsUUID(b) && a != b
    ensures BlobPath(partman, a, nameA, timeA).0 != BlobPath(partman, b, nameB, timeB).0
  {
    hide PartitionPrefix, IsUUID;
    UUIDsAreFree(a);
    UUIDsAreFree(b);
    var restA := a[0..2] + "/" + a[2..3] + "/" + BlobName(a, nameA);
    var restB := b[0..2] + "/" + b[2..3] + "/" + BlobName(b, nameB);
    assert restA[5..41] == a && restB[5..41] == b;
    assert restA != restB;
    if partman.Some? {
      PrefixIsFree(partman.value, timeA);
      PrefixIsFree(partman.value, timeB);
      CutAtSlash(PartitionPrefix(partman.value, timeA), restA, PartitionPrefix(partman.value, timeB), restB);
    }
  }

  /** Paths cut at their first slash are equal exactly when both parts are. */
  lemma CutAtSlash(a: string, x: string, b: string, y: string)
    requires Free(a, '/') && Free(b, '/')
    ensures (a + "/") + x == (b + "/") + y <==> a == b && x == y
  {
    var s, t := (a + "/") + x, (b + "/") + y;
    PrefixAtSlash(a, x, b, '/');
    assert t[..|b| + 1] == b + "/" && s[|a| + 1..] == x && t[|b| + 1..] == y;
    assert s == a + ['/'] + x;
  }

  lemma PrefixIsFree(iv: Interval, t: Time)
    ensures Free(PartitionPrefix(iv, t), '/')
  {
    hide CivilDate, Bounds, Number, IsoWeek.FromDate;
    var lb, d := CivilDate(Bounds(iv, t).0), CivilDate(t);
    var (year, week) := IsoWeek.FromDate(d.year, d.month, d.day);
    NumberIsFree(lb.year, 4);
    NumberIsFree(lb.month, 2);
    NumberIsFree(lb.day, 2);
    NumberIsFree(year, 4);
    NumberIsFree(week, 2);
    NumberIsFree(d.year, 4);
    NumberIsFree((lb.month - 1) / MONTHS_IN_QUARTER + 1, 0);
  }

  lemma NumberIsFree(n: int, w: nat)
    ensures Free(Number(n, w), '/')
  {
    hide Padded;
    DigitsFree(Padded(if n < 0 then -n else n, w));
  }
}
