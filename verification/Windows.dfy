/**
 One level of a time series as a sliding window of counts, without the ring it is stored in.
 Times are nanoseconds since Go's zero time; slot q of a window of granularity g covers
 [g*q, g*q + g).
 */
module Windows {
  import opened RingIndex

  // The counts of slots last - |counts| + 1 to last, oldest first.
  datatype Window = Window(g: int, last: int, counts: seq<int>) {

    predicate Valid() {
      g > 0 && |counts| >= 1
    }

    function First(): int {
      last - |counts| + 1
    }

    function End(): int {
      g * last
    }

    function Earliest(): int {
      g * First()
    }

    /** The count of a slot; nothing is counted outside the window. */
    function Count(q: int): int {
      if First() <= q <= last then counts[q - First()] else 0
    }
  }

  /** The slot of a time. */
  function Slot(t: int, g: int): int
    requires g > 0
  {
    t / g
  }

  /** time.Truncate: down to a multiple of g since the zero time. */
  function Truncate(t: int, g: int): (r: int)
    requires g > 0
    ensures r <= t < r + g
    ensures r == g * Slot(t, g)
  {
    t - t % g
  }

  lemma SlotOrder(t: int, g: int, q: int)
    requires g > 0
    ensures t < g * q <==> Slot(t, g) < q
    ensures g * q <= t <==> q <= Slot(t, g)
  {
    var s, r := t / g, t % g;
    assert t == g * s + r;
    if s < q {
      Scale(g, s + 1, q);
    } else {
      Scale(g, q, s);
    }
  }

  lemma SlotIs(t: int, g: int, q: int)
    requires g > 0 && g * q <= t < g * q + g
    ensures Slot(t, g) == q
  {
    SlotOrder(t, g, q);
    SlotOrder(t, g, q + 1);
  }

  lemma SlotsInOrder(t: int, u: int, g: int)
    requires g > 0 && t <= u
    ensures Slot(t, g) <= Slot(u, g)
  {
    SlotOrder(u, g, Slot(t, g));
  }

  // ---- Operations ------------------------------------------------------------------------------

  function Zeros(n: nat): (s: seq<int>)
    ensures |s| == n && forall k :: 0 <= k < n ==> s[k] == 0
  {
    seq(n, _ => 0)
  }

  /** level.clear: an empty window that ends with the slot of a time. */
  function Clear(w: Window, t: int): (r: Window)
    requires w.Valid()
    ensures r.Valid()
  {
    Window(w.g, Slot(t, w.g), Zeros(|w.counts|))
  }

  function Shift(w: Window): (r: Window)
    requires w.Valid()
    ensures r.Valid()
  {
    Window(w.g, w.last + 1, w.counts[1..] + [0])
  }

  /** level.advance: shift until the window's end reaches the target. */
  function Advance(w: Window, target: int): (r: Window)
    requires w.Valid()
    ensures r.Valid() && r.g == w.g && |r.counts| == |w.counts|
    decreases target - w.g * w.last
  {
    if target <= w.End() then w else Advance(Shift(w), target)
  }

  /** level.increaseAtTime for a slot of the window. */
  function Add(w: Window, amount: int, q: int): (r: Window)
    requires w.Valid() && w.First() <= q <= w.last
    ensures r.Valid()
  {
    w.(counts := w.counts[q - w.First() := w.Count(q) + amount])
  }

  /** What the ring makes of any slot: it counts its steps from the oldest around and around. */
  function AddWrapped(w: Window, amount: int, q: int): (r: Window)
    requires w.Valid()
    ensures r.Valid() && r.g == w.g && r.last == w.last && |r.counts| == |w.counts|
    ensures w.First() <= q <= w.last ==> r == Add(w, amount, q)
  {
    var k := (q - w.First()) % |w.counts|;
    assert w.First() <= q <= w.last ==> k == q - w.First() by {
      if w.First() <= q <= w.last {
        DivModIs(q - w.First(), |w.counts|, 0, q - w.First());
      }
    }
    Add(w, amount, w.First() + k)
  }

  lemma AddWrappedCounts(w: Window, amount: int, q: int)
    requires w.Valid()
    ensures var k := (q - w.First()) % |w.counts|;
            AddWrapped(w, amount, q) == w.(counts := w.counts[k := w.counts[k] + amount])
  {}

  // ---- What they mean ------------------------------------------------------------------------------

  lemma ShiftCounts(w: Window, q: int)
    requires w.Valid()
    ensures Shift(w).Count(q) == if q == w.First() then 0 else w.Count(q)
  {}

  /** An advance moves the end to the first slot boundary at or after the target, keeps the count of
      every slot still in the window and starts the new ones at 0. */
  lemma {:induction false} AdvanceMeans(w: Window, target: int)
    requires w.Valid()
    ensures var r := Advance(w, target);
            r.last >= w.last && target <= r.End()
            && (r.last > w.last ==> r.End() - r.g < target)
            && forall q :: r.First() <= q ==> r.Count(q) == w.Count(q)
    decreases target - w.g * w.last
  {
    if target > w.End() {
      AdvanceMeans(Shift(w), target);
      var r := Advance(w, target);
      forall q | r.First() <= q ensures r.Count(q) == w.Count(q) {
        ShiftCounts(w, q);
      }
    }
  }

  /** An advance the caller lets through shifts fewer times than the window has slots. */
  lemma AdvanceIsShort(w: Window, target: int)
    requires w.Valid() && target < w.End() + (w.g * |w.counts| - w.g)
    ensures Advance(w, target).last - w.last <= |w.counts| - 1
    ensures |w.counts| == 1 ==> Advance(w, target) == w
  {
    AdvanceMeans(w, target);
    var r := Advance(w, target);
    if r.last > w.last {
      var n := |w.counts|;
      assert w.g * r.last - w.g < w.g * w.last + (w.g * n - w.g);
      assert w.g * r.last < w.g * (w.last + n);
      if r.last >= w.last + n {
        Scale(w.g, w.last + n, r.last);
      }
    }
  }

  // ---- Sums over a range ------------------------------------------------------------------------------

  function Min(a: int, b: int): int {
    if a < b then a else b
  }

  function Max(a: int, b: int): int {
    if a > b then a else b
  }

  /** Part of a count: the length of an overlap over the granularity. */
  function Part(count: int, overlap: int, g: int): real
    requires g > 0
  {
    (count as real) * ((overlap as real) / (g as real))
  }

  /** What sumInterval adds for bucket k. */
  function Share(w: Window, k: int, start: int, end: int, latest: int): real
    requires w.Valid() && 0 <= k < |w.counts|
  {
    var cur := w.g * (w.First() + k);
    var next := Min(cur + w.g, latest);
    if cur < start || next > end then Part(w.counts[k], Min(next, end) - Max(cur, start), w.g)
    else w.counts[k] as real
  }

  /** Whether sumInterval's loop goes on at bucket k. */
  predicate Visits(w: Window, k: int, start: int, end: int, latest: int)
    requires w.Valid()
  {
    var cur := w.g * (w.First() + k);
    k < |w.counts| && cur < end && start <= Min(cur + w.g, latest)
  }

  function SumFrom(w: Window, k: nat, start: int, end: int, latest: int): real
    requires w.Valid()
    decreases |w.counts| - k
  {
    if Visits(w, k, start, end, latest) then Share(w, k, start, end, latest) + SumFrom(w, k + 1, start, end, latest)
    else 0.0
  }

  /** sumInterval: clamp to the window, then sum from the bucket of the start. */
  function SumInterval(w: Window, start: int, end: int, latest: int): real
    requires w.Valid()
  {
    var s := Max(start, w.Earliest());
    var e := Min(end, w.End());
    SlotOrder(s, w.g, w.First());
    SumFrom(w, Slot(s, w.g) - w.First(), s, e, latest)
  }

  function Total(counts: seq<int>): int {
    if counts == [] then 0 else Total(counts[..|counts| - 1]) + counts[|counts| - 1]
  }

  function TotalFrom(counts: seq<int>, k: nat): int
    decreases |counts| - k
  {
    if k >= |counts| then 0 else counts[k] + TotalFrom(counts, k + 1)
  }

  lemma {:induction false} TotalBothWays(counts: seq<int>, k: nat)
    requires k <= |counts|
    ensures Total(counts[..k]) + TotalFrom(counts, k) == Total(counts)
    decreases |counts| - k
  {
    if k == |counts| {
      assert counts[..k] == counts;
    } else {
      TotalBothWays(counts, k + 1);
      assert counts[..k + 1][..k] == counts[..k];
    }
  }

  lemma PartBounds(count: int, overlap: int, g: int)
    requires g > 0 && count >= 0 && 0 <= overlap <= g
    ensures 0.0 <= Part(count, overlap, g) <= count as real
  {
    var f := (overlap as real) / (g as real);
    FractionBounds(overlap as real, g as real);
    var c := count as real;
    assert 0.0 <= c * f;
    assert c * f <= c * 1.0;
  }

  lemma FractionBounds(x: real, y: real)
    requires 0.0 <= x <= y && y > 0.0
    ensures 0.0 <= x / y <= 1.0
  {
    Quotient(x / y, x, y);
  }

  lemma Quotient(f: real, x: real, y: real)
    requires 0.0 <= x <= y && y > 0.0 && f * y == x
    ensures 0.0 <= f <= 1.0
  {}

  /** The overlap of a visited bucket is part of the bucket. */
  lemma VisitedOverlap(w: Window, k: nat, start: int, end: int, latest: int)
    requires w.Valid() && Visits(w, k, start, end, latest)
    requires start <= end || w.g * (w.First() + k) >= start
    ensures var cur := w.g * (w.First() + k);
            var next := Min(cur + w.g, latest);
            cur < start || next > end ==> 0 <= Min(next, end) - Max(cur, start) <= w.g
  {}

  lemma ShareBounds(w: Window, k: nat, start: int, end: int, latest: int)
    requires w.Valid() && Visits(w, k, start, end, latest)
    requires start <= end || w.g * (w.First() + k) >= start
    requires w.counts[k] >= 0
    ensures 0.0 <= Share(w, k, start, end, latest) <= w.counts[k] as real
  {
    VisitedOverlap(w, k, start, end, latest);
    var cur := w.g * (w.First() + k);
    var next := Min(cur + w.g, latest);
    if cur < start || next > end {
      PartBounds(w.counts[k], Min(next, end) - Max(cur, start), w.g);
    }
  }

  lemma {:induction false} SumFromBounds(w: Window, k: nat, start: int, end: int, latest: int)
    requires w.Valid() && (start <= end || end <= w.g * (w.First() + k))
    requires forall i :: 0 <= i < |w.counts| ==> w.counts[i] >= 0
    ensures 0.0 <= SumFrom(w, k, start, end, latest) <= TotalFrom(w.counts, k) as real
    decreases |w.counts| - k
  {
    if k < |w.counts| {
      if start <= end {
        SumFromBounds(w, k + 1, start, end, latest);
      }
      if Visits(w, k, start, end, latest) {
        ShareBounds(w, k, start, end, latest);
      } else {
        TailNotNegative(w.counts, k);
      }
    }
  }

  lemma {:induction false} TailNotNegative(counts: seq<int>, k: nat)
    requires forall i :: 0 <= i < |counts| ==> counts[i] >= 0
    ensures TotalFrom(counts, k) >= 0
    decreases |counts| - k
  {
    if k < |counts| {
      TailNotNegative(counts, k + 1);
    }
  }

  // ---- sumInterval as a fractional overlap --------------------------------------------------------

  /** The length of bucket k's overlap with [start, end). */
  function Overlap(w: Window, k: int, start: int, end: int): (n: int)
    requires w.Valid()
    ensures n >= 0
  {
    var cur := w.g * (w.First() + k);
    Max(0, Min(cur + w.g, end) - Max(cur, start))
  }

  /** Each count weighted by the part of its bucket inside [start, end). */
  function Weighted(w: Window, k: nat, start: int, end: int): real
    requires w.Valid()
    decreases |w.counts| - k
  {
    if k >= |w.counts| then 0.0
    else Part(w.counts[k], Overlap(w, k, start, end), w.g) + Weighted(w, k + 1, start, end)
  }

  /** No bucket that reaches into the range is cut short by the latest time. */
  ghost predicate Unclipped(w: Window, end: int, latest: int)
    requires w.Valid()
  {
    forall k :: 0 <= k < |w.counts| && BucketStart(w, k) < Min(end, w.End()) ==> BucketStart(w, k) + w.g <= latest
  }

  function BucketStart(w: Window, k: int): int {
    w.g * (w.First() + k)
  }

  lemma PartOfNothing(count: int, g: int)
    requires g > 0
    ensures Part(count, 0, g) == 0.0 && Part(count, g, g) == count as real
  {}

  lemma BucketsInOrder(w: Window, j: int, k: int)
    requires w.Valid() && j < k
    ensures BucketStart(w, j) + w.g <= BucketStart(w, k)
  {
    Scale(w.g, w.First() + j + 1, w.First() + k);
  }

  lemma {:induction false} NothingBeyond(w: Window, k: nat, start: int, end: int)
    requires w.Valid() && (end <= BucketStart(w, k) || end <= start)
    ensures Weighted(w, k, start, end) == 0.0
    decreases |w.counts| - k
  {
    if k < |w.counts| {
      BucketsInOrder(w, k, k + 1);
      NothingBeyond(w, k + 1, start, end);
      PartOfNothing(w.counts[k], w.g);
    }
  }

  lemma {:induction false} NothingBefore(w: Window, j: nat, k: nat, start: int, end: int)
    requires w.Valid() && j <= k <= |w.counts| && BucketStart(w, k) <= start
    ensures Weighted(w, j, start, end) == Weighted(w, k, start, end)
    decreases k - j
  {
    if j < k {
      BucketsInOrder(w, j, k);
      NothingBefore(w, j + 1, k, start, end);
      PartOfNothing(w.counts[j], w.g);
    }
  }

  lemma {:induction false} SumFromWeighted(w: Window, k: nat, start: int, end: int, latest: int)
    requires w.Valid() && start <= end <= w.End() && Unclipped(w, end, latest)
    requires start < BucketStart(w, k) + w.g
    ensures SumFrom(w, k, start, end, latest) == Weighted(w, k, start, end)
    decreases |w.counts| - k
  {
    if k < |w.counts| {
      if BucketStart(w, k) < end {
        BucketsInOrder(w, k, k + 1);
        SumFromWeighted(w, k + 1, start, end, latest);
        ShareIsPart(w, k, start, end, latest);
      } else {
        NothingBeyond(w, k, start, end);
      }
    }
  }

  lemma ShareIsPart(w: Window, k: nat, start: int, end: int, latest: int)
    requires w.Valid() && k < |w.counts| && start <= end
    requires start < BucketStart(w, k) + w.g && BucketStart(w, k) < end
    requires BucketStart(w, k) + w.g <= latest
    ensures Visits(w, k, start, end, latest)
    ensures Share(w, k, start, end, latest) == Part(w.counts[k], Overlap(w, k, start, end), w.g)
  {
    PartOfNothing(w.counts[k], w.g);
  }

  lemma {:induction false} StartClamp(w: Window, k: nat, start: int, end: int)
    requires w.Valid()
    ensures Weighted(w, k, Max(start, w.Earliest()), end) == Weighted(w, k, start, end)
    decreases |w.counts| - k
  {
    if k < |w.counts| {
      StartClamp(w, k + 1, start, end);
      Scale(w.g, w.First(), w.First() + k);
    }
  }

  /** Where the latest time cuts no bucket short, sumInterval weighs each count by its bucket's
      overlap with the range, up to the window's end. */
  lemma SumIsWeighted(w: Window, start: int, end: int, latest: int)
    requires w.Valid() && start <= end && Unclipped(w, end, latest)
    ensures SumInterval(w, start, end, latest) == Weighted(w, 0, start, Min(end, w.End()))
  {
    var s, e := Max(start, w.Earliest()), Min(end, w.End());
    SlotOrder(s, w.g, w.First());
    var k := Slot(s, w.g) - w.First();
    var _ := Truncate(s, w.g);
    StartClamp(w, 0, start, e);
    if s <= e {
      SlotOrder(e, w.g, w.last);
      SlotsInOrder(s, e, w.g);
      SlotOrder(w.End(), w.g, w.last);
      SlotsInOrder(s, w.End(), w.g);
      SlotIs(w.End(), w.g, w.last);
      SumFromWeighted(w, k, s, e, latest);
      NothingBefore(w, 0, k, s, e);
    } else {
      OutsideIsEmpty(w, start, end);
      NothingBeyond(w, 0, s, e);
    }
  }

  /** A bucket counts in full when it starts in the range and is over, or cut by the latest time, within it. */
  predicate Whole(w: Window, k: int, start: int, end: int, latest: int) {
    var from := BucketStart(w, k);
    start <= from < end && start <= Min(from + w.g, latest) <= end
  }

  /** Each bucket in full, or by its overlap with the range up to the latest time. */
  function CutWeighted(w: Window, k: nat, start: int, end: int, latest: int): real
    requires w.Valid()
    decreases |w.counts| - k
  {
    if k >= |w.counts| then 0.0
    else
      (if Whole(w, k, start, end, latest) then w.counts[k] as real
       else Part(w.counts[k], Overlap(w, k, start, Min(end, latest)), w.g))
      + CutWeighted(w, k + 1, start, end, latest)
  }

  lemma {:induction false} NothingCut(w: Window, k: nat, start: int, end: int, latest: int)
    requires w.Valid() && (end <= BucketStart(w, k) || end <= start || latest < start)
    ensures CutWeighted(w, k, start, end, latest) == 0.0
    decreases |w.counts| - k
  {
    if k < |w.counts| {
      BucketsInOrder(w, k, k + 1);
      NothingCut(w, k + 1, start, end, latest);
      PartOfNothing(w.counts[k], w.g);
    }
  }

  lemma {:induction false} NothingCutBefore(w: Window, j: nat, k: nat, start: int, end: int, latest: int)
    requires w.Valid() && j <= k <= |w.counts| && BucketStart(w, k) <= start
    ensures CutWeighted(w, j, start, end, latest) == CutWeighted(w, k, start, end, latest)
    decreases k - j
  {
    if j < k {
      BucketsInOrder(w, j, k);
      NothingCutBefore(w, j + 1, k, start, end, latest);
      PartOfNothing(w.counts[j], w.g);
    }
  }

  lemma {:induction false} SumFromCut(w: Window, k: nat, start: int, end: int, latest: int)
    requires w.Valid() && start <= end <= w.End() && start < BucketStart(w, k) + w.g
    ensures SumFrom(w, k, start, end, latest) == CutWeighted(w, k, start, end, latest)
    decreases |w.counts| - k
  {
    if k < |w.counts| {
      if Visits(w, k, start, end, latest) {
        BucketsInOrder(w, k, k + 1);
        SumFromCut(w, k + 1, start, end, latest);
      } else {
        NothingCut(w, k, start, end, latest);
      }
    }
  }

  /** Whatever the latest time cuts short: sumInterval weighs each count by its bucket's overlap with the
      range as far as it meets the window, up to the latest time; but a bucket that starts in the range, and
      is over or cut within it, counts in full. */
  lemma SumIsCut(w: Window, start: int, end: int, latest: int)
    requires w.Valid() && start <= end
    ensures SumInterval(w, start, end, latest)
         == CutWeighted(w, 0, Max(start, w.Earliest()), Min(end, w.End()), latest)
  {
    var s, e := Max(start, w.Earliest()), Min(end, w.End());
    SlotOrder(s, w.g, w.First());
    var k := Slot(s, w.g) - w.First();
    var _ := Truncate(s, w.g);
    if s <= e {
      SlotOrder(e, w.g, w.last);
      SlotsInOrder(s, e, w.g);
      SlotOrder(w.End(), w.g, w.last);
      SlotsInOrder(s, w.End(), w.g);
      SlotIs(w.End(), w.g, w.last);
      SumFromCut(w, k, s, e, latest);
      NothingCutBefore(w, 0, k, s, e, latest);
    } else {
      OutsideIsEmpty(w, start, end);
      NothingCut(w, 0, s, e, latest);
    }
  }

  /** A range that misses the window has its start bucket past its end. */
  lemma OutsideIsEmpty(w: Window, start: int, end: int)
    requires w.Valid() && start <= end && Max(start, w.Earliest()) > Min(end, w.End())
    ensures Min(end, w.End()) <= w.g * Slot(Max(start, w.Earliest()), w.g)
  {
    var s := Max(start, w.Earliest());
    Scale(w.g, w.First(), w.last);
    if s > w.End() {
      SlotOrder(s, w.g, w.last);
      Scale(w.g, w.last, Slot(s, w.g));
    } else {
      SlotIs(w.Earliest(), w.g, w.First());
    }
  }

  /** The sum of any range lies between nothing and everything counted. */
  lemma SumBounds(w: Window, start: int, end: int, latest: int)
    requires w.Valid() && start <= end
    requires forall i :: 0 <= i < |w.counts| ==> w.counts[i] >= 0
    ensures 0.0 <= SumInterval(w, start, end, latest) <= Total(w.counts) as real
  {
    var s, e := Max(start, w.Earliest()), Min(end, w.End());
    SlotOrder(s, w.g, w.First());
    var k := Slot(s, w.g) - w.First();
    if s > e {
      OutsideIsEmpty(w, start, end);
    }
    SumFromBounds(w, k, s, e, latest);
    if k <= |w.counts| {
      TotalBothWays(w.counts, k);
      PrefixNotNegative(w.counts, k);
    } else {
      PrefixNotNegative(w.counts, |w.counts|);
      assert w.counts[..|w.counts|] == w.counts;
    }
  }

  lemma {:induction false} PrefixNotNegative(counts: seq<int>, k: nat)
    requires k <= |counts| && forall i :: 0 <= i < |counts| ==> counts[i] >= 0
    ensures Total(counts[..k]) >= 0
  {
    if k > 0 {
      PrefixNotNegative(counts, k - 1);
      assert counts[..k][..k - 1] == counts[..k - 1];
    }
  }

  lemma PartAdds(count: int, x: int, y: int, g: int)
    requires g > 0
    ensures Part(count, x, g) + Part(count, y, g) == Part(count, x + y, g)
  {
    var c, p, q, d := count as real, x as real, y as real, g as real;
    assert (p + q) / d == p / d + q / d;
    assert c * (p / d + q / d) == c * (p / d) + c * (q / d);
  }

  lemma {:induction false} WeightedAdds(w: Window, k: nat, a: int, b: int, c: int, limit: int)
    requires w.Valid() && a <= b <= c
    ensures Weighted(w, k, a, Min(b, limit)) + Weighted(w, k, b, Min(c, limit)) == Weighted(w, k, a, Min(c, limit))
    decreases |w.counts| - k
  {
    if k < |w.counts| {
      WeightedAdds(w, k + 1, a, b, c, limit);
      var x, y := Overlap(w, k, a, Min(b, limit)), Overlap(w, k, b, Min(c, limit));
      assert x + y == Overlap(w, k, a, Min(c, limit));
      PartAdds(w.counts[k], x, y, w.g);
    }
  }

  /** Adjacent ranges add up, as long as the latest time cuts none of their buckets short. */
  lemma SumAdds(w: Window, a: int, b: int, c: int, latest: int)
    requires w.Valid() && a <= b <= c && Unclipped(w, c, latest)
    ensures SumInterval(w, a, b, latest) + SumInterval(w, b, c, latest) == SumInterval(w, a, c, latest)
  {
    SumIsWeighted(w, a, b, latest);
    SumIsWeighted(w, b, c, latest);
    SumIsWeighted(w, a, c, latest);
    WeightedAdds(w, 0, a, b, c, w.End());
  }

  /** The counts of slots p to q - 1. */
  function CountRange(w: Window, p: int, q: int): int
    decreases q - p
  {
    if p >= q then 0 else CountRange(w, p, q - 1) + w.Count(q - 1)
  }

  lemma {:induction false} CountRangeFront(w: Window, p: int, q: int)
    requires p < q
    ensures CountRange(w, p, q) == w.Count(p) + CountRange(w, p + 1, q)
    decreases q - p
  {
    if p + 1 < q {
      CountRangeFront(w, p, q - 1);
    }
  }

  lemma {:induction false} AlignedWeighted(w: Window, k: nat, p: int, q: int)
    requires w.Valid() && w.First() <= p <= q <= w.last + 1 && k <= |w.counts|
    ensures Weighted(w, k, w.g * p, w.g * q) == CountRange(w, Max(p, w.First() + k), q) as real
    decreases |w.counts| - k
  {
    if k < |w.counts| {
      AlignedWeighted(w, k + 1, p, q);
      PartOfNothing(w.counts[k], w.g);
      var x := w.First() + k;
      AlignedOverlap(w.g, x, p, q);
      if p <= x < q {
        CountRangeFront(w, x, q);
      }
    }
  }

  lemma AlignedOverlap(g: int, x: int, p: int, q: int)
    requires g > 0 && p <= q
    ensures Max(0, Min(g * x + g, g * q) - Max(g * x, g * p)) == if p <= x < q then g else 0
  {
    if x < p {
      Scale(g, x + 1, p);
    } else if x >= q {
      Scale(g, q, x);
      Scale(g, p, x);
    } else {
      Scale(g, p, x);
      Scale(g, x + 1, q);
    }
  }

  lemma SlotsUnclipped(w: Window, q: int, latest: int)
    requires w.Valid() && w.g * q <= latest
    ensures Unclipped(w, w.g * q, latest)
  {
    hide BucketStart;
    forall k | 0 <= k < |w.counts| && BucketStart(w, k) < Min(w.g * q, w.End())
      ensures BucketStart(w, k) + w.g <= latest
    {
      BucketEnds(w, k, q);
    }
  }

  /** A bucket that starts before a slot ends by its start. */
  lemma BucketEnds(w: Window, k: int, q: int)
    requires w.Valid() && BucketStart(w, k) < w.g * q
    ensures BucketStart(w, k) + w.g <= w.g * q
  {
    var x := w.First() + k;
    if x >= q {
      Scale(w.g, q, x);
    } else {
      Scale(w.g, x + 1, q);
      assert w.g * (x + 1) == w.g * x + w.g;
    }
  }

  /** On ranges of whole slots inside the window that end by the latest time, the sum is exact. */
  lemma SumIsExact(w: Window, p: int, q: int, latest: int)
    requires w.Valid() && w.First() <= p <= q <= w.last && w.g * q <= latest
    ensures SumInterval(w, w.g * p, w.g * q, latest) == CountRange(w, p, q) as real
  {
    hide SumInterval, Weighted, CountRange, Unclipped;
    Scale(w.g, p, q);
    Scale(w.g, q, w.last);
    SlotsUnclipped(w, q, latest);
    SumIsWeighted(w, w.g * p, w.g * q, latest);
    AlignedWeighted(w, 0, p, q);
  }
}
