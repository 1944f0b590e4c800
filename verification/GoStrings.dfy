/** The few string operations of Go's standard library that partition names rest on. */
module GoStrings {

  datatype Option<+T> = None | Some(value: T)

  function Members(s: seq<string>): set<string> {
    set x | x in s
  }

  // ---- Decimal numbers --------------------------------------------------------------------

  predicate IsDigit(c: char) {
    '0' <= c <= '9'
  }

  predicate AllDigits(s: string) {
    forall i :: 0 <= i < |s| ==> IsDigit(s[i])
  }

  function Digit(k: nat): (c: char)
    requires k < 10
    ensures IsDigit(c) && c as int - '0' as int == k
  {
    "0123456789"[k]
  }

  /** fmt's %d on a non-negative number. */
  function Decimal(n: nat): (s: string)
    ensures |s| > 0 && AllDigits(s) && Value(s) == n
  {
    if n < 10 then [Digit(n)]
    else
      var s := Decimal(n / 10) + [Digit(n % 10)];
      assert s[..|s| - 1] == Decimal(n / 10);
      s
  }

  function Zeros(k: nat): (s: string)
    ensures |s| == k && AllDigits(s) && Value(s) == 0
  {
    if k == 0 then ""
    else
      var s := Zeros(k - 1) + ['0'];
      assert s[..|s| - 1] == Zeros(k - 1);
      s
  }

  /** fmt's %0wd, and the year, month and day fields of time.Format. */
  function Padded(n: nat, w: nat): (s: string)
    ensures |s| > 0 && AllDigits(s) && Value(s) == n
  {
    var d := Decimal(n);
    if |d| >= w then d
    else
      LeadingZeros(w - |d|, d);
      Zeros(w - |d|) + d
  }

  function Value(s: string): int
    requires AllDigits(s)
  {
    if s == "" then 0 else 10 * Value(s[..|s| - 1]) + (s[|s| - 1] as int - '0' as int)
  }

  lemma {:induction false} LeadingZeros(k: nat, s: string)
    requires AllDigits(s)
    ensures AllDigits(Zeros(k) + s) && Value(Zeros(k) + s) == Value(s)
  {
    if s == "" {
      assert Zeros(k) + s == Zeros(k);
    } else {
      var t := s[..|s| - 1];
      LeadingZeros(k, t);
      assert (Zeros(k) + s)[..|Zeros(k) + s| - 1] == Zeros(k) + t;
    }
  }

  /** strconv.Atoi, which takes one leading sign. */
  function Atoi(s: string): Option<int> {
    var body := if s != "" && (s[0] == '+' || s[0] == '-') then s[1..] else s;
    if body == "" || !AllDigits(body) then None
    else if s[0] == '-' then Some(-Value(body))
    else Some(Value(body))
  }

  lemma AtoiPadded(n: nat, w: nat)
    ensures Atoi(Padded(n, w)) == Some(n)
    ensures Atoi(Decimal(n)) == Some(n)
  {
    var p, d := Padded(n, w), Decimal(n);
    assert IsDigit(p[0]) && IsDigit(d[0]);
    hide Padded, Decimal, Value;
  }

  /** A sign in front counts; nothing, and anything else that is not a digit, is no number. */
  lemma AtoiSigned(n: nat, w: nat, s: string)
    ensures Atoi("+" + Padded(n, w)) == Some(n)
    ensures Atoi("-" + Padded(n, w)).Some? && Atoi("-" + Padded(n, w)).value + n == 0
    ensures Atoi("") == None && Atoi("+") == None && Atoi("-") == None
    ensures (exists i :: 0 <= i < |s| && !IsDigit(s[i]) && (i > 0 || (s[0] != '+' && s[0] != '-'))) ==> Atoi(s) == None
  {
    var p := Padded(n, w);
    assert ("+" + p)[1..] == p && ("-" + p)[1..] == p;
    hide Padded, Value;
    if i :| 0 <= i < |s| && !IsDigit(s[i]) && (i > 0 || (s[0] != '+' && s[0] != '-')) {
      assert i > 0 ==> s[1..][i - 1] == s[i];
    }
  }

  /** A decimal number has no leading zero, and padding brings it exactly to its width. */
  lemma {:induction false} PaddedExactly(n: nat, w: nat)
    ensures n > 0 ==> Decimal(n)[0] != '0'
    ensures n == 0 ==> Decimal(n) == "0"
    ensures |Padded(n, w)| == if |Decimal(n)| < w then w else |Decimal(n)|
  {
    if n >= 10 {
      PaddedExactly(n / 10, w);
    }
  }

  lemma DecimalStep(n: nat, d: nat, w: nat)
    requires d < 10
    ensures n > 0 ==> Decimal(10 * n + d) == Decimal(n) + [Digit(d)]
    ensures Decimal(d) == [Digit(d)]
    ensures |Decimal(n)| >= w ==> Padded(n, w) == Decimal(n)
  {}

  lemma PaddingIdle(n: nat)
    requires n >= 1000
    ensures Padded(n, 4) == Decimal(n)
  {
    assert |Decimal(n / 1000)| >= 1;
    assert n / 10 / 10 / 10 == n / 1000;
    assert |Decimal(n / 10 / 10)| == |Decimal(n / 1000)| + 1;
    assert |Decimal(n / 10)| >= 3;
  }

  lemma PaddingShows(n: nat)
    requires n < 1000
    ensures Padded(n, 4) != Decimal(n)
  {
    var tens, hundreds := n / 10, n / 10 / 10;
    assert hundreds < 10 && |Decimal(hundreds)| == 1;
    assert |Decimal(tens)| <= 2;
    assert |Decimal(n)| <= 3;
  }

  // ---- Splitting ------------------------------------------------------------------------------

  predicate OccursAt(s: string, sep: string, i: nat) {
    i + |sep| <= |s| && s[i..i + |sep|] == sep
  }

  /** The first index from i on where sep occurs, or |s|. */
  function FirstFrom(s: string, sep: string, i: nat): (r: nat)
    requires i <= |s| && sep != ""
    ensures i <= r <= |s|
    ensures r < |s| ==> OccursAt(s, sep, r)
    ensures forall j :: i <= j < r ==> !OccursAt(s, sep, j)
    decreases |s| - i
  {
    if i == |s| then i
    else if OccursAt(s, sep, i) then i
    else FirstFrom(s, sep, i + 1)
  }

  /** strings.Split with a non-empty separator. */
  function Split(s: string, sep: string): (parts: seq<string>)
    requires sep != ""
    ensures |parts| >= 1
    decreases |s|
  {
    var i := FirstFrom(s, sep, 0);
    if i == |s| then [s] else [s[..i]] + Split(s[i + |sep|..], sep)
  }

  predicate Free(s: string, c: char) {
    forall i :: 0 <= i < |s| ==> s[i] != c
  }

  lemma OccursFirst(s: string, sep: string, i: nat)
    requires sep != "" && OccursAt(s, sep, i)
    ensures s[i] == sep[0]
  {
    assert s[i..i + |sep|][0] == s[i];
  }

  /** A string without the separator's first character stays whole. */
  lemma SplitWhole(s: string, sep: string)
    requires sep != "" && Free(s, sep[0])
    ensures Split(s, sep) == [s]
  {
    var i := FirstFrom(s, sep, 0);
    if i < |s| {
      OccursFirst(s, sep, i);
    }
  }

  /** A first field without the separator's first character is cut off. */
  lemma SplitField(a: string, sep: string, b: string)
    requires sep != "" && Free(a, sep[0])
    ensures Split(a + sep + b, sep) == [a] + Split(b, sep)
  {
    var s := a + sep + b;
    var i := FirstFrom(s, sep, 0);
    assert s[|a|..|a| + |sep|] == sep;
    assert OccursAt(s, sep, |a|);
    OccursFirst(s, sep, i);
    assert i == |a|;
    assert s[..i] == a && s[i + |sep|..] == b;
  }

  predicate HasPrefix(s: string, p: string) {
    |p| <= |s| && s[..|p|] == p
  }

  predicate HasSuffix(s: string, p: string) {
    |p| <= |s| && s[|s| - |p|..] == p
  }

  /** strings.TrimRight of one character. */
  function TrimRight(s: string, c: char): (r: string)
    ensures |r| <= |s| && r == s[..|r|]
    ensures r != "" ==> r[|r| - 1] != c
    ensures forall i :: |r| <= i < |s| ==> s[i] == c
  {
    if s != "" && s[|s| - 1] == c then TrimRight(s[..|s| - 1], c) else s
  }

  /** Paths cut at their first slash have the same prefix exactly when the heads agree. */
  lemma PrefixAtSlash(a: string, rest: string, b: string, c: char)
    requires Free(a, c) && Free(b, c)
    ensures HasPrefix(a + [c] + rest, b + [c]) <==> a == b
  {
    var s, p := a + [c] + rest, b + [c];
    assert s[|a|] == c && p[|b|] == c;
    assert forall i :: 0 <= i < |a| ==> s[i] == a[i] != c;
    assert forall i :: 0 <= i < |b| ==> p[i] == b[i] != c;
    if HasPrefix(s, p) {
      assert forall i :: 0 <= i <= |b| ==> p[i] == s[i];
      assert |a| == |b|;
    }
    if a == b {
      assert s[..|b| + 1] == b + [c];
    }
  }
}
