/**
 One level of a time series (internal/timeseries/level.go): a circular array of buckets, proved
 against the sliding window of module Windows.
 */
module Levels {
  import opened GoInt
  import opened RingIndex
  import opened Windows

  class Level {
    const granularity: int
    const length: int
    var end: int
    var oldest: int
    var newest: int
    const buckets: array<int>

    ghost predicate Valid()
      reads this, buckets
    {
      granularity > 0 && length >= 1 && buckets.Length == length
      && end % granularity == 0
      && Position(length, oldest)
      && newest == (oldest + length - 1) % length
    }

    ghost function Abs(): (w: Window)
      requires Valid()
      reads this, buckets
      ensures w.Valid() && w.g == granularity && |w.counts| == length && w.End() == end
    {
      EndIsSlot(end, granularity);
      Window(granularity, end / granularity, Unrolled(buckets[..], oldest))
    }

    /** newLevel: init clears to the zero time. */
    constructor (granularity: int, length: int)
      requires granularity > 0 && length >= 1
      ensures Valid() && fresh(this) && fresh(buckets)
      ensures this.granularity == granularity && this.length == length
      ensures Abs() == Window(granularity, 0, Windows.Zeros(length))
    {
      this.granularity := granularity;
      this.length := length;
      this.end := 0;
      this.oldest := 1;
      this.newest := 0;
      this.buckets := new int[length];
      new;
      ClearBuckets();
      RingOfOne(length);
      UnrolledZeros(buckets[..], 1);
    }

    method ClearBuckets()
      modifies buckets
      ensures forall i :: 0 <= i < buckets.Length ==> buckets[i] == 0
    {
      for i := 0 to buckets.Length
        invariant forall j :: 0 <= j < i ==> buckets[j] == 0
      {
        buckets[i] := 0;
      }
    }

    method Clear(time: int)
      requires Valid()
      modifies this`oldest, this`newest, this`end, buckets
      ensures Valid()
      ensures Abs() == Windows.Clear(old(Abs()), time)
    {
      oldest := 1;
      newest := 0;
      end := Truncate(time, granularity);
      EndOfSlot(Slot(time, granularity), granularity);
      RingOfOne(length);
      ClearBuckets();
      UnrolledZeros(buckets[..], 1);
    }

    function Duration(): int {
      granularity * length - granularity
    }

    function Earliest(): int
      reads this
    {
      end - Duration()
    }

    function Latest(): int
      reads this
    {
      end
    }

    /** Adds to the bucket of a time. A time outside the window wraps around the ring: a later one is
        reported, as the source logs it; for an earlier one the index may fall below 0, which panics. */
    method IncreaseAtTime(amount: int, time: int) returns (future: bool, panicked: bool)
      requires Valid()
      modifies buckets
      ensures Valid()
      ensures future <==> Slot(time, granularity) > Abs().last
      ensures panicked <==> Rem(oldest + (Slot(time, granularity) - Abs().First()), length) < 0
      ensures panicked ==> Abs() == old(Abs())
      ensures !panicked ==> Abs() == Windows.AddWrapped(old(Abs()), amount, Slot(time, granularity))
    {
      hide Unrolled, Position, Slot, QuoTrunc, Rem, Windows.AddWrapped;
      ghost var w, q, b := Abs(), Slot(time, granularity), buckets[..];
      var difference := end - Truncate(time, granularity);
      SlotSteps(granularity, w.last, q);
      future := difference < 0;
      var steps := (length - 1) - QuoTrunc(difference, granularity);
      var index := Rem(oldest + steps, length);
      panicked := index < 0;
      if panicked {
        return;
      }
      WrappedAdd(b, oldest, steps, amount);
      AddWrappedCounts(w, amount, q);
      buckets[index] := buckets[index] + amount;
      assert buckets[..] == b[index := b[index] + amount];
    }

    /** Moves on a granule at a time, as far as the target is. A level of one bucket has no position to
        move on from, and panics. */
    method Advance(target: int) returns (panicked: bool)
      requires Valid()
      modifies this`oldest, this`newest, this`end, buckets
      ensures panicked <==> length == 1 && target > old(end)
      ensures !panicked ==> Valid() && Abs() == Windows.Advance(old(Abs()), target)
    {
      panicked := false;
      if !(end < target) {
        return;
      }
      ghost var w := Abs();
      while target > end
        invariant Valid() && target > old(end)
        invariant length == 1 ==> end == old(end)
        invariant Windows.Advance(Abs(), target) == Windows.Advance(w, target)
        decreases target - end
      {
        if oldest >= buckets.Length {
          end := end + granularity;
          return true;
        }
        ghost var v, b, o := Abs(), buckets[..], oldest;
        EndOfSlot(v.last + 1, granularity);
        SlotProduct(granularity, v.last, 1);
        UnrolledShift(b, o);
        RingNext(o, length);
        end := end + granularity;
        buckets[oldest] := 0;
        newest := oldest;
        oldest := (oldest + 1) % buckets.Length;
        assert buckets[..] == b[o := 0];
        assert Abs() == Windows.Shift(v);
      }
    }

    /** sumInterval: the loop from the bucket of the start to the end or the latest time. */
    method SumInterval(start: int, end: int, latest: int) returns (sum: real)
      requires Valid()
      ensures sum == Windows.SumInterval(Abs(), start, end, latest)
    {
      ghost var w := Abs();
      assert w.counts == Unrolled(buckets[..], oldest);
      LevelBounds(this);
      hide Duration, Earliest, Latest, Window.Earliest, Window.First, Window.End, BucketStart, Share, Part, Visits,
           SumFrom, Windows.SumInterval, QuoTrunc, Windows.Advance, Position, Abs, Slot, Unrolled;
      var s := if start < Earliest() then Earliest() else start;
      var e := if end > Latest() then Latest() else end;
      SumStart(w, start, end, latest);
      var startSteps := QuoTrunc(s - Earliest(), granularity);
      var idx := startSteps;
      var currentTime := Earliest() + startSteps * granularity;
      sum := 0.0;
      ghost var total := Windows.SumInterval(w, start, end, latest);
      while idx < length && currentTime < e
        invariant idx >= 0 && currentTime == BucketStart(w, idx)
        invariant sum + SumFrom(w, idx, s, e, latest) == total
        decreases length - idx
      {
        var nextTime := currentTime + granularity;
        if nextTime > latest {
          nextTime := latest;
        }
        StopTest(w, idx, s, e, latest);
        if nextTime < s {
          break;
        }
        var bucket := buckets[(oldest + idx) % length];
        var count := bucket as real;
        assert bucket == w.counts[idx] by {
          UnrolledAt(buckets[..], oldest, idx);
        }
        if currentTime < s || nextTime > e {
          var overlapStart := if currentTime > s then currentTime else s;
          var overlapEnd := if nextTime < e then nextTime else e;
          count := Part(bucket, overlapEnd - overlapStart, granularity);
        }
        assert count == Share(w, idx, s, e, latest) by {
          ShareOf(w, idx, s, e, latest);
        }
        sum := sum + count;
        NextBucket(w, idx);
        idx := idx + 1;
        currentTime := currentTime + granularity;
      }
      EndTest(w, idx, s, e, latest);
    }
  }

  lemma NextBucket(w: Window, k: int)
    requires w.Valid()
    ensures BucketStart(w, k + 1) == BucketStart(w, k) + w.g
  {
    SlotProduct(w.g, w.First() + k, 1);
  }

  /** The bucket the loop of sumInterval starts at. */
  lemma SumStart(w: Window, start: int, end: int, latest: int)
    requires w.Valid()
    ensures var s := Max(start, w.Earliest());
            var idx := QuoTrunc(s - w.Earliest(), w.g);
            idx >= 0 && w.Earliest() + idx * w.g == BucketStart(w, idx)
            && Windows.SumInterval(w, start, end, latest) == SumFrom(w, idx, s, Min(end, w.End()), latest)
  {
    hide QuoTrunc, SumFrom;
    var s := Max(start, w.Earliest());
    SlotOrder(s, w.g, w.First());
    StartSteps(w.g, s, w.First());
    SlotProduct(w.g, w.First(), Slot(s, w.g) - w.First());
  }

  lemma StopTest(w: Window, k: int, start: int, end: int, latest: int)
    requires w.Valid() && 0 <= k < |w.counts| && BucketStart(w, k) < end
    ensures Visits(w, k, start, end, latest) <==> start <= Min(BucketStart(w, k) + w.g, latest)
    ensures SumFrom(w, k, start, end, latest)
         == if Visits(w, k, start, end, latest)
            then Share(w, k, start, end, latest) + SumFrom(w, k + 1, start, end, latest)
            else 0.0
  {
    hide Share;
  }

  lemma EndTest(w: Window, k: int, start: int, end: int, latest: int)
    requires w.Valid() && k >= 0
    requires k >= |w.counts| || BucketStart(w, k) >= end || start > Min(BucketStart(w, k) + w.g, latest)
    ensures SumFrom(w, k, start, end, latest) == 0.0
  {}

  lemma ShareOf(w: Window, k: int, start: int, end: int, latest: int)
    requires w.Valid() && 0 <= k < |w.counts|
    ensures var cur := BucketStart(w, k);
            var next := if cur + w.g > latest then latest else cur + w.g;
            Share(w, k, start, end, latest)
            == if cur < start || next > end
               then Part(w.counts[k], (if next < end then next else end) - (if cur > start then cur else start), w.g)
               else w.counts[k] as real
  {}

  /** The oldest and newest slots of a level and of its window start at the same times. */
  lemma LevelBounds(l: Level)
    requires l.Valid()
    ensures l.Earliest() == l.Latest() - l.Duration() == l.Abs().Earliest()
    ensures l.Latest() == l.Abs().End()
  {
    EarliestIsFirst(l.Abs());
  }

  /** Go's division of a duration, truncating toward zero. */
  function QuoTrunc(a: int, b: int): int
    requires b > 0
  {
    if a >= 0 then a / b else -((-a) / b)
  }

  // ---- Ring and slot arithmetic -----------------------------------------------------------------------

  lemma EndIsSlot(end: int, g: int)
    requires g > 0 && end % g == 0
    ensures g * (end / g) == end
  {}

  lemma EndOfSlot(q: int, g: int)
    requires g > 0
    ensures (g * q) % g == 0 && (g * q) / g == q
  {
    SlotIs(g * q, g, q);
  }

  lemma SlotProduct(g: int, a: int, b: int)
    ensures g * (a + b) == g * a + b * g
    ensures g * (a - b) == g * a - g * b
  {}

  lemma EarliestIsFirst(w: Window)
    requires w.Valid()
    ensures w.End() - (w.g * |w.counts| - w.g) == w.Earliest()
  {
    SlotProduct(w.g, w.last, -|w.counts|);
    SlotProduct(w.g, w.last - |w.counts|, 1);
  }

  lemma MultipleQuo(g: int, n: int)
    requires g > 0
    ensures QuoTrunc(g * n, g) == n
    ensures g * n < 0 <==> n < 0
  {
    if n >= 0 {
      Scale(g, 0, n);
      SlotIs(g * n, g, n);
    } else {
      Scale(g, n, -1);
      SlotIs(g * -n, g, -n);
      assert -(g * n) == g * -n;
    }
  }

  /** The steps from a slot to the last one, as increaseAtTime divides them. */
  lemma SlotSteps(g: int, last: int, q: int)
    requires g > 0
    ensures QuoTrunc(g * last - g * q, g) == last - q
    ensures g * last - g * q < 0 <==> q > last
  {
    hide QuoTrunc;
    SlotProduct(g, last, q);
    MultipleQuo(g, last - q);
  }

  lemma StartSteps(g: int, s: int, first: int)
    requires g > 0 && g * first <= s
    ensures QuoTrunc(s - g * first, g) == Slot(s, g) - first
  {
    var q := Slot(s, g);
    var t := Truncate(s, g);
    SlotOrder(s, g, first);
    SlotProduct(g, first, q - first);
    SlotProduct(g, q - first, 0);
    SlotIs(s - g * first, g, q - first);
  }

  lemma RingOfOne(n: int)
    requires n >= 1
    ensures 0 == (1 + n - 1) % n
  {
    EndOfSlot(1, n);
  }

  lemma RingDistinct(oldest: int, n: int, j: int, k: int)
    requires Position(n, oldest) && 0 <= j < n && 0 <= k < n && j != k
    ensures Ring(oldest, n, j) != Ring(oldest, n, k)
  {
    Wrap(oldest, n, j);
    Wrap(oldest, n, k);
  }

  lemma RingNext(oldest: int, n: int)
    requires n >= 2 && 0 <= oldest < n
    ensures 0 <= (oldest + 1) % n < n && ((oldest + 1) % n + n - 1) % n == oldest
  {
    Wrap(oldest, n, 1);
    Wrap((oldest + 1) % n + n, n, -1);
  }

  // ---- The ring unrolled ---------------------------------------------------------------------------------

  // A single bucket keeps oldest one past it.
  predicate Position(n: int, oldest: int) {
    n >= 1 && if n == 1 then oldest == 1 else 0 <= oldest < n
  }

  /** The buckets from the oldest to the newest. */
  function Unrolled(b: seq<int>, oldest: int): (r: seq<int>)
    requires |b| >= 1
    ensures |r| == |b| && forall k :: 0 <= k < |b| ==> r[k] == b[Ring(oldest, |b|, k)]
  {
    seq(|b|, k requires 0 <= k < |b| => b[Ring(oldest, |b|, k)])
  }

  lemma UnrolledAt(b: seq<int>, oldest: int, k: int)
    requires 0 <= k < |b|
    ensures Unrolled(b, oldest)[k] == b[(oldest + k) % |b|]
  {}

  lemma UnrolledZeros(b: seq<int>, oldest: int)
    requires |b| >= 1 && forall i :: 0 <= i < |b| ==> b[i] == 0
    ensures Unrolled(b, oldest) == Windows.Zeros(|b|)
  {
    hide Ring;
  }

  lemma UnrolledAdd(b: seq<int>, oldest: int, k: int, amount: int)
    requires Position(|b|, oldest) && 0 <= k < |b|
    ensures var i := (oldest + k) % |b|;
            0 <= i < |b|
            && Unrolled(b[i := b[i] + amount], oldest) == Unrolled(b, oldest)[k := Unrolled(b, oldest)[k] + amount]
  {
    var i := Ring(oldest, |b|, k);
    hide Ring;
    forall j | 0 <= j < |b| && j != k ensures Ring(oldest, |b|, j) != i {
      RingDistinct(oldest, |b|, j, k);
    }
    assert Unrolled(b[i := b[i] + amount], oldest) == Unrolled(b, oldest)[k := Unrolled(b, oldest)[k] + amount];
  }

  /** Go's remainder, when it is not negative, is the position that many steps around the ring. */
  lemma WrappedIndex(oldest: int, steps: int, n: int)
    requires n >= 1 && Rem(oldest + steps, n) >= 0
    ensures 0 <= steps % n < n && Rem(oldest + steps, n) == (oldest + steps % n) % n
  {
    SameRemainder(oldest + steps, n);
    SumRemainder(oldest, steps, n);
  }

  lemma SameRemainder(x: int, n: int)
    requires n >= 1 && Rem(x, n) >= 0
    ensures Rem(x, n) == x % n
  {
    if x < 0 {
      var p := (-x) / n;
      assert -x == n * p;
      NegatedProduct(n, p);
      DivModIs(x, n, -p, 0);
    }
  }

  lemma NegatedProduct(n: int, p: int)
    ensures n * -p == -(n * p)
  {}

  lemma SumRemainder(a: int, b: int, n: int)
    requires n >= 1
    ensures (a + b) % n == (a + b % n) % n
  {
    var c := a + b % n;
    var p, q := b / n, c / n;
    assert b == n * p + b % n && c == n * q + c % n;
    Distributes(n, p, q);
    DivModIs(a + b, n, p + q, c % n);
  }

  lemma Distributes(n: int, p: int, q: int)
    ensures n * (p + q) == n * p + n * q
  {}

  lemma WrappedAdd(b: seq<int>, oldest: int, steps: int, amount: int)
    requires Position(|b|, oldest) && Rem(oldest + steps, |b|) >= 0
    ensures var i, k := Rem(oldest + steps, |b|), steps % |b|;
            0 <= i < |b| && 0 <= k < |b|
            && Unrolled(b[i := b[i] + amount], oldest) == Unrolled(b, oldest)[k := Unrolled(b, oldest)[k] + amount]
  {
    hide Unrolled, Rem;
    WrappedIndex(oldest, steps, |b|);
    UnrolledAdd(b, oldest, steps % |b|, amount);
  }

  /** A time no older than the window never panics. */
  lemma NoPanic(l: Level, time: int)
    requires l.Valid() && time >= l.Abs().Earliest()
    ensures Rem(l.oldest + (Slot(time, l.granularity) - l.Abs().First()), l.length) >= 0
  {
    hide Slot;
    SlotOrder(time, l.granularity, l.Abs().First());
  }

  lemma UnrolledShift(b: seq<int>, oldest: int)
    requires |b| >= 2 && 0 <= oldest < |b|
    ensures Unrolled(b[oldest := 0], (oldest + 1) % |b|) == Unrolled(b, oldest)[1..] + [0]
  {
    var n := |b|;
    var next := (oldest + 1) % n;
    var u, v := Unrolled(b, oldest), Unrolled(b[oldest := 0], next);
    forall k | 0 <= k < n ensures v[k] == (u[1..] + [0])[k] {
      RingShift(oldest, n, k);
    }
  }

  lemma RingShift(oldest: int, n: int, k: int)
    requires n >= 2 && 0 <= oldest < n && 0 <= k < n
    ensures Ring((oldest + 1) % n, n, k) == if k < n - 1 then Ring(oldest, n, k + 1) else oldest
    ensures k < n - 1 ==> Ring(oldest, n, k + 1) != oldest
  {
    Wrap(oldest, n, 1);
    Wrap((oldest + 1) % n, n, k);
    if k < n - 1 {
      Wrap(oldest, n, k + 1);
    }
  }
}
