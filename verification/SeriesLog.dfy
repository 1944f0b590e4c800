/**
 The time series against a plain log of its events. Every call of IncreaseAtTime is one entry of
 the log, with the time it was given and the time it is credited at; whole runs of calls and
 queries keep the levels equal to sums over that log.
 */
module SeriesLog {
  import opened RingIndex
  import opened Windows
  import opened SeriesModel

  datatype Entry = Entry(time: int, credit: int, amount: int)

  // A call that still waits in the pending counter.
  datatype Wait = Wait(time: int, amount: int)

  // What a level has lost: what clears took from the slot that is now its oldest, and all it dropped.
  datatype Loss = Loss(taken: int, dropped: int)

  datatype Traced = Traced(s: Series, log: seq<Entry>, waiting: seq<Wait>, losses: seq<Loss>) {

    predicate Valid() {
      WindowsValid(s.ws) && |losses| == |s.ws|
    }
  }

  // A call of IncreaseAtTime, or of Range with the clock at a time.
  datatype Op = Inc(amount: int, time: int) | Tick(now: int)

  function Flushed(waiting: seq<Wait>, credit: int): (r: seq<Entry>)
    ensures |r| == |waiting|
    ensures forall i :: 0 <= i < |waiting| ==> r[i] == Entry(waiting[i].time, credit, waiting[i].amount)
  {
    seq(|waiting|, i requires 0 <= i < |waiting| => Entry(waiting[i].time, credit, waiting[i].amount))
  }

  /** What the shifts of an advance drop, bucket by bucket. */
  function ShiftDrops(w: Window, target: int): int
    requires w.Valid()
    decreases target - w.g * w.last
  {
    if target <= w.End() then 0 else w.counts[0] + ShiftDrops(Shift(w), target)
  }

  /** What advanceLevels drops on one level: every bucket of a clear, the shifted ones of an advance. */
  function AdvanceDrops(w: Window, target: int): int
    requires w.Valid()
  {
    if Clears(w, target) then Total(w.counts) else ShiftDrops(w, target)
  }

  predicate Clears(w: Window, target: int)
    requires w.Valid()
  {
    target >= w.End() + (w.g * |w.counts| - w.g)
  }

  /** A clear that lands one window ahead, so that the newest slot stays in the window, as its oldest. */
  predicate ClearsOntoNewest(w: Window, target: int)
    requires w.Valid()
  {
    Clears(w, target) && Slot(target, w.g) == w.last + |w.counts| - 1
  }

  function AdvanceLoss(w: Window, l: Loss, target: int): Loss
    requires w.Valid()
  {
    var taken :=
      if ClearsOntoNewest(w, target) then w.Count(w.last) + (if |w.counts| == 1 then l.taken else 0)
      else if AdvanceLevel(w, target).First() == w.First() then l.taken
      else 0;
    Loss(taken, l.dropped + AdvanceDrops(w, target))
  }

  /** A credit older than the window is skipped. */
  function CreditLoss(w: Window, l: Loss, amount: int, time: int): Loss {
    if time < w.Earliest() then l.(dropped := l.dropped + amount) else l
  }

  function Advanced(t: Traced, target: int): (r: Traced)
    requires t.Valid()
    ensures r.Valid() && r.s == AdvanceTo(t.s, target)
  {
    if target <= t.s.pendingTime then t
    else
      Traced(AdvanceTo(t.s, target), t.log + Flushed(t.waiting, t.s.pendingTime), [],
             seq(|t.losses|, i requires 0 <= i < |t.losses| =>
               CreditLoss(AdvanceLevel(t.s.ws[i], target), AdvanceLoss(t.s.ws[i], t.losses[i], target), t.s.pending,
                          t.s.pendingTime)))
  }

  function Step(t: Traced, op: Op): (r: Traced)
    requires t.Valid()
    ensures r.Valid()
    ensures r.s == match op case Inc(a, time) => Increase(t.s, a, time) case Tick(now) => AdvanceTo(t.s, now)
  {
    match op
    case Tick(now) => Advanced(t, now)
    case Inc(a, time) =>
      var s := Increase(t.s, a, time);
      if time > t.s.pendingTime then Traced(s, Advanced(t, time).log, [Wait(time, a)], Advanced(t, time).losses)
      else if time > t.s.pendingTime - t.s.ws[0].g then Traced(s, t.log, t.waiting + [Wait(time, 1)], t.losses)
      else
        Traced(s, t.log + [Entry(time, time, a)], t.waiting,
               seq(|t.losses|, i requires 0 <= i < |t.losses| => CreditLoss(t.s.ws[i], t.losses[i], a, time)))
  }

  predicate Shape(gs: seq<(int, int)>) {
    |gs| >= 1 && forall i :: 0 <= i < |gs| ==> gs[i].0 > 0 && gs[i].1 >= 1
  }

  function Run(gs: seq<(int, int)>, ops: seq<Op>): (t: Traced)
    requires Shape(gs)
    ensures t.Valid() && |t.s.ws| == |gs|
  {
    if ops == [] then Traced(Initial(gs), [], [], seq(|gs|, _ => Loss(0, 0)))
    else Step(Run(gs, ops[..|ops| - 1]), ops[|ops| - 1])
  }

  // ---- Sums over the log -----------------------------------------------------------------------------

  function SlotSum(log: seq<Entry>, g: int, q: int): int
    requires g > 0
  {
    if log == [] then 0
    else
      var e := log[|log| - 1];
      SlotSum(log[..|log| - 1], g, q) + (if Slot(e.credit, g) == q then e.amount else 0)
  }

  /** What was credited before slot q. */
  function SumBefore(log: seq<Entry>, g: int, q: int): int
    requires g > 0
  {
    if log == [] then 0
    else
      var e := log[|log| - 1];
      SumBefore(log[..|log| - 1], g, q) + (if Slot(e.credit, g) < q then e.amount else 0)
  }

  /** What was credited at times in [start, end). */
  function RangeSum(log: seq<Entry>, start: int, end: int): int {
    if log == [] then 0
    else
      var e := log[|log| - 1];
      RangeSum(log[..|log| - 1], start, end) + (if start <= e.credit < end then e.amount else 0)
  }

  function LogTotal(log: seq<Entry>): int {
    if log == [] then 0 else LogTotal(log[..|log| - 1]) + log[|log| - 1].amount
  }

  function WaitTotal(waiting: seq<Wait>): int {
    if waiting == [] then 0 else WaitTotal(waiting[..|waiting| - 1]) + waiting[|waiting| - 1].amount
  }

  lemma SlotSumOne(log: seq<Entry>, e: Entry, g: int, q: int)
    requires g > 0
    ensures SlotSum(log + [e], g, q) == SlotSum(log, g, q) + (if Slot(e.credit, g) == q then e.amount else 0)
  {
    assert (log + [e])[..|log|] == log;
  }

  lemma {:induction false} SlotSumFlushed(log: seq<Entry>, waiting: seq<Wait>, credit: int, g: int, q: int)
    requires g > 0
    ensures SlotSum(log + Flushed(waiting, credit), g, q)
         == SlotSum(log, g, q) + (if Slot(credit, g) == q then WaitTotal(waiting) else 0)
  {
    var f := Flushed(waiting, credit);
    if waiting == [] {
      assert log + f == log;
    } else {
      var init := waiting[..|waiting| - 1];
      SlotSumFlushed(log, init, credit, g, q);
      assert log + f == (log + Flushed(init, credit)) + [f[|f| - 1]];
      SlotSumOne(log + Flushed(init, credit), f[|f| - 1], g, q);
    }
  }

  lemma {:induction false} LogTotalFlushed(log: seq<Entry>, waiting: seq<Wait>, credit: int)
    ensures LogTotal(log + Flushed(waiting, credit)) == LogTotal(log) + WaitTotal(waiting)
  {
    var f := Flushed(waiting, credit);
    if waiting == [] {
      assert log + f == log;
    } else {
      var init := waiting[..|waiting| - 1];
      LogTotalFlushed(log, init, credit);
      assert log + f == (log + Flushed(init, credit)) + [f[|f| - 1]];
      assert (log + f)[..|log + f| - 1] == log + Flushed(init, credit);
    }
  }

  // ---- A level against the log ----------------------------------------------------------------------------

  /** Every slot but the window's oldest holds exactly what the log credits to it; none is credited
      past the window. */
  ghost predicate Exact(w: Window, log: seq<Entry>)
    requires w.Valid()
  {
    (forall q :: q > w.First() ==> w.Count(q) == SlotSum(log, w.g, q))
    && (forall e :: e in log ==> Slot(e.credit, w.g) <= w.last)
  }

  lemma AdvanceKeepsExact(w: Window, log: seq<Entry>, target: int)
    requires w.Valid() && Exact(w, log)
    ensures Exact(AdvanceLevel(w, target), log)
  {
    var r := AdvanceLevel(w, target);
    AdvanceLevelReaches(w, target);
    if target >= w.End() + (w.g * |w.counts| - w.g) {
      ClearDiscards(w, target);
    } else {
      AdvanceMeans(w, target);
    }
    forall q | q > r.First() ensures r.Count(q) == SlotSum(log, w.g, q) {
      assert w.Count(q) == SlotSum(log, w.g, q);
    }
  }

  /** A clear discards only slots at or before the new oldest. */
  lemma ClearDiscards(w: Window, target: int)
    requires w.Valid() && target >= w.End() + (w.g * |w.counts| - w.g)
    ensures w.last <= Clear(w, target).First()
    ensures forall q :: q > Clear(w, target).First() ==> w.Count(q) == 0 == Clear(w, target).Count(q)
  {
    var n := |w.counts|;
    assert w.g * (w.last + n - 1) == w.g * w.last + (w.g * n - w.g);
    SlotOrder(target, w.g, w.last + n - 1);
  }

  lemma CreditKeepsExact(w: Window, log: seq<Entry>, log': seq<Entry>, amount: int, time: int)
    requires w.Valid() && Exact(w, log) && Reaches(w, time)
    requires forall q :: SlotSum(log', w.g, q) == SlotSum(log, w.g, q) + (if Slot(time, w.g) == q then amount else 0)
    requires forall e :: e in log' ==> e in log || e.credit == time
    ensures Exact(CreditLevel(w, amount, time), log')
  {
    SlotOrder(time, w.g, w.First());
    var r := CreditLevel(w, amount, time);
    forall q | q > r.First() ensures r.Count(q) == SlotSum(log', w.g, q) {
      assert w.Count(q) == SlotSum(log, w.g, q);
    }
  }

  /** The oldest slot falls short of what the log credits to it by exactly what was taken. */
  ghost predicate OldestShort(w: Window, log: seq<Entry>, taken: int)
    requires w.Valid()
  {
    w.Count(w.First()) + taken == SlotSum(log, w.g, w.First())
  }

  lemma {:induction false} NothingPast(log: seq<Entry>, g: int, q: int)
    requires g > 0 && forall e :: e in log ==> Slot(e.credit, g) < q
    ensures SlotSum(log, g, q) == 0
  {
    if log != [] {
      assert log[|log| - 1] in log;
      NothingPast(log[..|log| - 1], g, q);
    }
  }

  /** A clear that is let through lands at least one window ahead. */
  lemma ClearLands(w: Window, target: int)
    requires w.Valid() && Clears(w, target)
    ensures Slot(target, w.g) >= w.last + |w.counts| - 1
  {
    ClearDiscards(w, target);
  }

  /** What an advance takes from the slot that becomes the oldest is what that slot then falls short. */
  lemma AdvanceKeepsShort(w: Window, log: seq<Entry>, l: Loss, target: int)
    requires w.Valid() && Exact(w, log) && OldestShort(w, log, l.taken)
    ensures OldestShort(AdvanceLevel(w, target), log, AdvanceLoss(w, l, target).taken)
  {
    var r := AdvanceLevel(w, target);
    AdvanceLevelReaches(w, target);
    if Clears(w, target) {
      ClearLands(w, target);
      if r.First() > w.last {
        NothingPast(log, w.g, r.First());
      } else {
        assert |w.counts| > 1 ==> w.Count(w.last) == SlotSum(log, w.g, w.last);
      }
    } else {
      AdvanceMeans(w, target);
      assert r.Count(r.First()) == w.Count(r.First());
      if r.First() > w.First() {
        assert w.Count(r.First()) == SlotSum(log, w.g, r.First());
      }
    }
  }

  lemma CreditKeepsShort(w: Window, log: seq<Entry>, log': seq<Entry>, taken: int, amount: int, time: int)
    requires w.Valid() && OldestShort(w, log, taken) && Reaches(w, time)
    requires forall q :: SlotSum(log', w.g, q) == SlotSum(log, w.g, q) + (if Slot(time, w.g) == q then amount else 0)
    ensures OldestShort(CreditLevel(w, amount, time), log', taken)
  {
    SlotOrder(time, w.g, w.First());
  }

  /** Every slot of the window, the oldest too, holds exactly what the log credits to it. */
  ghost predicate WholeExact(w: Window, log: seq<Entry>)
    requires w.Valid()
  {
    Exact(w, log) && OldestShort(w, log, 0)
  }

  /** An advance of a level whose slots are all exact leaves them all exact exactly when it is not a
      clear that lands on its newest slot while that slot counts something. */
  lemma AdvanceIsExact(w: Window, log: seq<Entry>, target: int)
    requires w.Valid() && WholeExact(w, log)
    ensures WholeExact(AdvanceLevel(w, target), log) <==> !(ClearsOntoNewest(w, target) && w.Count(w.last) != 0)
  {
    AdvanceKeepsExact(w, log, target);
    AdvanceKeepsShort(w, log, Loss(0, 0), target);
  }

  /** A credit keeps every slot exact. */
  lemma CreditIsExact(w: Window, log: seq<Entry>, e: Entry)
    requires w.Valid() && WholeExact(w, log) && Reaches(w, e.credit)
    ensures WholeExact(CreditLevel(w, e.amount, e.credit), log + [e])
  {
    forall q
      ensures SlotSum(log + [e], w.g, q) == SlotSum(log, w.g, q) + (if Slot(e.credit, w.g) == q then e.amount else 0)
    {
      SlotSumOne(log, e, w.g, q);
    }
    CreditKeepsExact(w, log, log + [e], e.amount, e.credit);
    CreditKeepsShort(w, log, log + [e], 0, e.amount, e.credit);
  }

  /** The oldest slot never holds more than the log credits to it. */
  ghost predicate OldestAtMost(w: Window, log: seq<Entry>)
    requires w.Valid()
  {
    0 <= w.Count(w.First()) <= SlotSum(log, w.g, w.First())
  }

  ghost predicate NoDebit(log: seq<Entry>) {
    forall e :: e in log ==> e.amount >= 0
  }

  lemma {:induction false} SlotSumNotNegative(log: seq<Entry>, g: int, q: int)
    requires g > 0 && NoDebit(log)
    ensures SlotSum(log, g, q) >= 0
  {
    if log != [] {
      assert log[|log| - 1] in log;
      SlotSumNotNegative(log[..|log| - 1], g, q);
    }
  }

  lemma AdvanceKeepsOldest(w: Window, log: seq<Entry>, target: int)
    requires w.Valid() && Exact(w, log) && OldestAtMost(w, log) && NoDebit(log)
    ensures OldestAtMost(AdvanceLevel(w, target), log)
  {
    var r := AdvanceLevel(w, target);
    AdvanceLevelReaches(w, target);
    SlotSumNotNegative(log, w.g, r.First());
    if target < w.End() + (w.g * |w.counts| - w.g) {
      AdvanceMeans(w, target);
      assert r.Count(r.First()) == w.Count(r.First());
    }
  }

  lemma CreditKeepsOldest(w: Window, log: seq<Entry>, log': seq<Entry>, amount: int, time: int)
    requires w.Valid() && OldestAtMost(w, log) && Reaches(w, time) && amount >= 0
    requires forall q :: SlotSum(log', w.g, q) == SlotSum(log, w.g, q) + (if Slot(time, w.g) == q then amount else 0)
    ensures OldestAtMost(CreditLevel(w, amount, time), log')
  {
    SlotOrder(time, w.g, w.First());
  }

  // ---- The invariant of a run --------------------------------------------------------------------------------

  /** Every level agrees with the log up to what its oldest slot lost, and the pending counter with the
      calls that wait. */
  ghost predicate Agrees(t: Traced) {
    Valid(t.s) && t.Valid()
    && (forall i :: 0 <= i < |t.s.ws| ==> Exact(t.s.ws[i], t.log) && OldestShort(t.s.ws[i], t.log, t.losses[i].taken))
    && t.s.pending == WaitTotal(t.waiting)
  }

  /** Every call is credited less than one finest granule away from its own time. */
  ghost predicate Near(t: Traced)
    requires |t.s.ws| >= 1
  {
    var g := t.s.ws[0].g;
    (forall e :: e in t.log ==> e.credit - g < e.time < e.credit + g)
    && (forall w :: w in t.waiting ==> t.s.pendingTime - g < w.time < t.s.pendingTime + g)
  }

  lemma AdvancedAgrees(t: Traced, target: int)
    requires Agrees(t)
    ensures Agrees(Advanced(t, target))
  {
    var r := Advanced(t, target);
    AdvanceToValid(t.s, target);
    if target > t.s.pendingTime {
      FlushIsPast(t.s, target);
      forall i | 0 <= i < |t.s.ws|
        ensures Exact(r.s.ws[i], r.log) && OldestShort(r.s.ws[i], r.log, r.losses[i].taken)
      {
        var w := t.s.ws[i];
        AdvanceKeepsExact(w, t.log, target);
        AdvanceKeepsShort(w, t.log, t.losses[i], target);
        forall q ensures SlotSum(r.log, w.g, q)
                      == SlotSum(t.log, w.g, q) + (if Slot(t.s.pendingTime, w.g) == q then t.s.pending else 0) {
          SlotSumFlushed(t.log, t.waiting, t.s.pendingTime, w.g, q);
        }
        CreditKeepsExact(AdvanceLevel(w, target), t.log, r.log, t.s.pending, t.s.pendingTime);
        CreditKeepsShort(AdvanceLevel(w, target), t.log, r.log, r.losses[i].taken, t.s.pending, t.s.pendingTime);
      }
    }
  }

  lemma LatestAsideAdvance(s: Series, latest: int, target: int)
    requires WindowsValid(s.ws)
    ensures AdvanceTo(s.(latest := latest), target) == AdvanceTo(s, target).(latest := latest)
  {}

  lemma StepAgrees(t: Traced, op: Op)
    requires Agrees(t)
    ensures Agrees(Step(t, op))
  {
    match op
    case Tick(now) => AdvancedAgrees(t, now);
    case Inc(a, time) =>
      IncreaseValid(t.s, a, time);
      if time > t.s.pendingTime {
        AdvancedAgrees(t, time);
        LatestAsideAdvance(t.s, Max(t.s.latest, time), time);
        assert [Wait(time, a)][..0] == [];
      } else if time > t.s.pendingTime - t.s.ws[0].g {
        assert (t.waiting + [Wait(time, 1)])[..|t.waiting|] == t.waiting;
      } else {
        LateAgrees(t, a, time);
      }
  }

  lemma LateAgrees(t: Traced, a: int, time: int)
    requires Agrees(t) && time <= t.s.pendingTime - t.s.ws[0].g
    ensures Agrees(Step(t, Inc(a, time)))
  {
    IncreaseValid(t.s, a, time);
    LateIsPast(t.s, time);
    var r := Step(t, Inc(a, time));
    Scale(1, 0, t.s.ws[0].g);
    forall i | 0 <= i < |t.s.ws|
      ensures Exact(r.s.ws[i], r.log) && OldestShort(r.s.ws[i], r.log, r.losses[i].taken)
    {
      var w := t.s.ws[i];
      forall q ensures SlotSum(r.log, w.g, q) == SlotSum(t.log, w.g, q) + (if Slot(time, w.g) == q then a else 0) {
        SlotSumOne(t.log, Entry(time, time, a), w.g, q);
      }
      CreditKeepsExact(w, t.log, r.log, a, time);
      CreditKeepsShort(w, t.log, r.log, r.losses[i].taken, a, time);
    }
  }

  /** In every reachable state, on every level, every slot of the window counts exactly the logged calls
      credited to it, but for what a clear took from the oldest. */
  lemma {:induction false} RunAgrees(gs: seq<(int, int)>, ops: seq<Op>)
    requires Shape(gs)
    ensures Agrees(Run(gs, ops))
  {
    if ops == [] {
      InitialValid(gs);
    } else {
      RunAgrees(gs, ops[..|ops| - 1]);
      StepAgrees(Run(gs, ops[..|ops| - 1]), ops[|ops| - 1]);
    }
  }

  /** In every reachable state all slots of a level, the oldest too, are exact exactly when nothing is
      taken from its oldest; AdvanceIsExact says which advances take something. */
  lemma {:induction false} RunIsExact(gs: seq<(int, int)>, ops: seq<Op>, i: nat)
    requires Shape(gs) && i < |gs|
    ensures var t := Run(gs, ops);
            t.s.ws[i].Valid() && (WholeExact(t.s.ws[i], t.log) <==> t.losses[i].taken == 0)
  {
    RunAgrees(gs, ops);
  }

  /** After an advance past the window's end, the new end is less than a granule from the target. */
  lemma EndNearTarget(w: Window, target: int)
    requires w.Valid() && target > w.End()
    ensures AdvanceLevel(w, target).End() - w.g < target < AdvanceLevel(w, target).End() + w.g
  {
    hide Advance, Clear;
    AdvanceLevelReaches(w, target);
    var r := AdvanceLevel(w, target);
    SlotOrder(target, w.g, r.last + 1);
    NextEnd(w.g, r.last);
  }

  lemma NextEnd(g: int, last: int)
    ensures g * (last + 1) == g * last + g
  {}

  lemma AdvancedNear(t: Traced, target: int)
    requires Agrees(t) && Near(t)
    ensures Near(Advanced(t, target))
    ensures target > t.s.pendingTime ==>
      var r := Advanced(t, target); r.s.pendingTime - r.s.ws[0].g < target < r.s.pendingTime + r.s.ws[0].g
  {
    hide Exact, AdvanceLevel, CreditLevel;
    if target > t.s.pendingTime {
      EndNearTarget(t.s.ws[0], target);
    }
  }

  lemma StepNear(t: Traced, op: Op)
    requires Agrees(t) && Near(t)
    ensures Near(Step(t, op))
  {
    hide Exact, AdvanceLevel, CreditLevel, AdvanceTo, Reaches;
    match op
    case Tick(now) => AdvancedNear(t, now);
    case Inc(a, time) =>
      AdvancedNear(t, time);
      LatestAsideAdvance(t.s, Max(t.s.latest, time), time);
  }

  /** No call is credited a finest granule or more away from its time, in any run. */
  lemma {:induction false} RunNear(gs: seq<(int, int)>, ops: seq<Op>)
    requires Shape(gs)
    ensures Near(Run(gs, ops))
  {
    if ops != [] {
      RunAgrees(gs, ops[..|ops| - 1]);
      RunNear(gs, ops[..|ops| - 1]);
      StepNear(Run(gs, ops[..|ops| - 1]), ops[|ops| - 1]);
    }
  }

  // ---- Conservation ----------------------------------------------------------------------------------------------

  function Calls(ops: seq<Op>): nat {
    if ops == [] then 0 else Calls(ops[..|ops| - 1]) + (if ops[|ops| - 1].Inc? then 1 else 0)
  }

  predicate UnitAmounts(ops: seq<Op>) {
    forall op :: op in ops && op.Inc? ==> op.amount == 1
  }

  /** Every call is in the log or waiting, once; with unit amounts each counts one. */
  lemma {:induction false} NoCallLost(gs: seq<(int, int)>, ops: seq<Op>)
    requires Shape(gs)
    ensures var t := Run(gs, ops); |t.log| + |t.waiting| == Calls(ops)
    ensures UnitAmounts(ops) ==>
      var t := Run(gs, ops);
      (forall e :: e in t.log ==> e.amount == 1) && (forall w :: w in t.waiting ==> w.amount == 1)
  {
    if ops != [] {
      var init := ops[..|ops| - 1];
      NoCallLost(gs, init);
      assert ops[|ops| - 1] in ops;
      assert forall op :: op in init ==> op in ops;
    }
  }

  lemma {:induction false} UnitTotals(log: seq<Entry>, waiting: seq<Wait>)
    ensures (forall e :: e in log ==> e.amount == 1) ==> LogTotal(log) == |log|
    ensures (forall w :: w in waiting ==> w.amount == 1) ==> WaitTotal(waiting) == |waiting|
    decreases |log| + |waiting|
  {
    if log != [] {
      assert log[|log| - 1] in log;
      UnitTotals(log[..|log| - 1], waiting);
    } else if waiting != [] {
      assert waiting[|waiting| - 1] in waiting;
      UnitTotals(log, waiting[..|waiting| - 1]);
    }
  }

  /** The log's total over the slots up to a last one, cut at slot p. */
  function SlotRange(log: seq<Entry>, g: int, p: int, q: int): int
    requires g > 0
    decreases q - p
  {
    if p >= q then 0 else SlotRange(log, g, p, q - 1) + SlotSum(log, g, q - 1)
  }

  lemma {:induction false} SlotRangeOne(log: seq<Entry>, e: Entry, g: int, p: int, q: int)
    requires g > 0
    ensures SlotRange(log + [e], g, p, q)
         == SlotRange(log, g, p, q) + (if p <= Slot(e.credit, g) < q then e.amount else 0)
    decreases q - p
  {
    if p < q {
      SlotRangeOne(log, e, g, p, q - 1);
      SlotSumOne(log, e, g, q - 1);
    }
  }

  lemma {:induction false} EmptySlots(g: int, p: int, q: int)
    requires g > 0
    ensures SlotRange([], g, p, q) == 0
    decreases q - p
  {
    if p < q {
      EmptySlots(g, p, q - 1);
    }
  }

  lemma {:induction false} TotalBySlots(log: seq<Entry>, g: int, p: int, last: int)
    requires g > 0 && p <= last + 1 && forall e :: e in log ==> Slot(e.credit, g) <= last
    ensures LogTotal(log) == SumBefore(log, g, p) + SlotRange(log, g, p, last + 1)
  {
    if log == [] {
      EmptySlots(g, p, last + 1);
    } else {
      var init, e := log[..|log| - 1], log[|log| - 1];
      assert e in log;
      TotalBySlots(init, g, p, last);
      SlotRangeOne(init, e, g, p, last + 1);
      assert log == init + [e];
    }
  }

  lemma {:induction false} CountsBySlots(w: Window, log: seq<Entry>, k: nat)
    requires w.Valid() && 1 <= k <= |w.counts| && Exact(w, log)
    ensures Total(w.counts[..k]) == w.counts[0] + SlotRange(log, w.g, w.First() + 1, w.First() + k)
  {
    if k == 1 {
      assert w.counts[..1][..0] == [];
    } else {
      CountsBySlots(w, log, k - 1);
      assert w.counts[..k][..k - 1] == w.counts[..k - 1];
      assert w.Count(w.First() + k - 1) == w.counts[k - 1];
    }
  }

  lemma {:induction false} SlotRangeFront(log: seq<Entry>, g: int, p: int, q: int)
    requires g > 0 && p < q
    ensures SlotRange(log, g, p, q) == SlotSum(log, g, p) + SlotRange(log, g, p + 1, q)
    decreases q - p
  {
    if p + 1 < q {
      SlotRangeFront(log, g, p, q - 1);
    }
  }

  lemma {:induction false} TotalFront(counts: seq<int>)
    requires |counts| >= 1
    ensures Total(counts) == counts[0] + Total(counts[1..])
  {
    var n := |counts| - 1;
    if n > 0 {
      TotalFront(counts[..n]);
      assert counts[1..][..n - 1] == counts[..n][1..];
    }
  }

  lemma {:induction false} TotalRaised(counts: seq<int>, k: nat, amount: int)
    requires k < |counts|
    ensures Total(counts[k := counts[k] + amount]) == Total(counts) + amount
  {
    var n, raised := |counts| - 1, counts[k := counts[k] + amount];
    if k < n {
      TotalRaised(counts[..n], k, amount);
      assert raised[..n] == counts[..n][k := counts[k] + amount];
    } else {
      assert raised[..n] == counts[..n];
    }
  }

  lemma {:induction false} TotalZeros(n: nat)
    ensures Total(Zeros(n)) == 0
  {
    if n > 0 {
      TotalZeros(n - 1);
      assert Zeros(n)[..n - 1] == Zeros(n - 1);
    }
  }

  lemma {:induction false} ShiftConserves(w: Window, target: int)
    requires w.Valid()
    ensures Total(Advance(w, target).counts) + ShiftDrops(w, target) == Total(w.counts)
    decreases target - w.g * w.last
  {
    if target > w.End() {
      ShiftConserves(Shift(w), target);
      TotalFront(w.counts);
      assert (w.counts[1..] + [0])[..|w.counts| - 1] == w.counts[1..];
    }
  }

  lemma AdvanceConserves(w: Window, target: int)
    requires w.Valid()
    ensures Total(AdvanceLevel(w, target).counts) + AdvanceDrops(w, target) == Total(w.counts)
  {
    if Clears(w, target) {
      TotalZeros(|w.counts|);
    } else {
      ShiftConserves(w, target);
    }
  }

  lemma CreditConserves(w: Window, l: Loss, amount: int, time: int)
    requires w.Valid() && Reaches(w, time)
    ensures Total(CreditLevel(w, amount, time).counts) + CreditLoss(w, l, amount, time).dropped
         == Total(w.counts) + l.dropped + amount
  {
    SlotOrder(time, w.g, w.First());
    if time >= w.Earliest() {
      TotalRaised(w.counts, Slot(time, w.g) - w.First(), amount);
    }
  }

  /** On every level, whatever was credited is in a bucket or was dropped. */
  ghost predicate Conserves(t: Traced)
    requires t.Valid()
  {
    forall i :: 0 <= i < |t.s.ws| ==> Total(t.s.ws[i].counts) + t.losses[i].dropped == LogTotal(t.log)
  }

  lemma AdvancedConserves(t: Traced, target: int)
    requires Agrees(t) && Conserves(t)
    ensures Conserves(Advanced(t, target))
  {
    hide Exact, OldestShort, AdvanceLevel, CreditLevel, CreditLoss, AdvanceDrops, Total;
    if target > t.s.pendingTime {
      var r := Advanced(t, target);
      FlushIsPast(t.s, target);
      LogTotalFlushed(t.log, t.waiting, t.s.pendingTime);
      forall i | 0 <= i < |t.s.ws| ensures Total(r.s.ws[i].counts) + r.losses[i].dropped == LogTotal(r.log) {
        var w := t.s.ws[i];
        AdvanceConserves(w, target);
        CreditConserves(AdvanceLevel(w, target), AdvanceLoss(w, t.losses[i], target), t.s.pending, t.s.pendingTime);
      }
    }
  }

  lemma StepConserves(t: Traced, op: Op)
    requires Agrees(t) && Conserves(t)
    ensures Conserves(Step(t, op))
  {
    hide Exact, OldestShort, AdvanceLevel, CreditLevel, CreditLoss, AdvanceLoss, Total;
    match op
    case Tick(now) => AdvancedConserves(t, now);
    case Inc(a, time) =>
      if time > t.s.pendingTime {
        AdvancedConserves(t, time);
        LatestAsideAdvance(t.s, Max(t.s.latest, time), time);
      } else if time <= t.s.pendingTime - t.s.ws[0].g {
        var r := Step(t, op);
        LateIsPast(t.s, time);
        assert r.log[..|t.log|] == t.log;
        forall i | 0 <= i < |t.s.ws| ensures Total(r.s.ws[i].counts) + r.losses[i].dropped == LogTotal(r.log) {
          CreditConserves(t.s.ws[i], t.losses[i], a, time);
        }
      }
  }

  /** In every run, on every level, all that was credited is in a bucket or was dropped by a shift, a
      clear or a credit too old. */
  lemma {:induction false} RunConserves(gs: seq<(int, int)>, ops: seq<Op>)
    requires Shape(gs)
    ensures Conserves(Run(gs, ops))
  {
    if ops == [] {
      forall i | 0 <= i < |gs| ensures Total(Initial(gs).ws[i].counts) == 0 {
        TotalZeros(gs[i].1);
      }
    } else {
      RunAgrees(gs, ops[..|ops| - 1]);
      RunConserves(gs, ops[..|ops| - 1]);
      StepConserves(Run(gs, ops[..|ops| - 1]), ops[|ops| - 1]);
    }
  }

  /** On every level of every run with unit amounts, bucket total plus pending plus what the level's
      operations dropped is the number of calls: nothing is lost or counted twice. */
  lemma {:induction false} Conservation(gs: seq<(int, int)>, ops: seq<Op>, i: nat)
    requires Shape(gs) && UnitAmounts(ops) && i < |gs|
    ensures var t := Run(gs, ops);
            Total(t.s.ws[i].counts) + t.s.pending + t.losses[i].dropped == Calls(ops)
  {
    RunAgrees(gs, ops);
    RunConserves(gs, ops);
    NoCallLost(gs, ops);
    var t := Run(gs, ops);
    UnitTotals(t.log, t.waiting);
  }

  /** What a level's operations dropped is what was credited before its window, and what clears took
      from its oldest slot. */
  lemma {:induction false} DroppedIsOld(gs: seq<(int, int)>, ops: seq<Op>, i: nat)
    requires Shape(gs) && i < |gs|
    ensures var t := Run(gs, ops);
            var w := t.s.ws[i];
            w.Valid() && t.losses[i].dropped == SumBefore(t.log, w.g, w.First()) + t.losses[i].taken
  {
    hide CreditLevel, AdvanceLevel, Run;
    RunAgrees(gs, ops);
    RunConserves(gs, ops);
    var t := Run(gs, ops);
    var w := t.s.ws[i];
    TotalBySlots(t.log, w.g, w.First(), w.last);
    CountsBySlots(w, t.log, |w.counts|);
    assert w.counts[..|w.counts|] == w.counts;
    SlotRangeFront(t.log, w.g, w.First(), w.last + 1);
  }

  ghost predicate Sound(t: Traced)
    requires WindowsValid(t.s.ws)
  {
    NoDebit(t.log) && (forall w :: w in t.waiting ==> w.amount >= 0)
    && (forall i :: 0 <= i < |t.s.ws| ==> OldestAtMost(t.s.ws[i], t.log))
  }

  lemma {:induction false} WaitNotNegative(waiting: seq<Wait>)
    requires forall w :: w in waiting ==> w.amount >= 0
    ensures WaitTotal(waiting) >= 0
  {
    if waiting != [] {
      assert waiting[|waiting| - 1] in waiting;
      WaitNotNegative(waiting[..|waiting| - 1]);
    }
  }

  lemma AdvancedSound(t: Traced, target: int)
    requires Agrees(t) && Sound(t)
    ensures Sound(Advanced(t, target))
  {
    var r := Advanced(t, target);
    if target > t.s.pendingTime {
      FlushIsPast(t.s, target);
      WaitNotNegative(t.waiting);
      forall i | 0 <= i < |t.s.ws| ensures OldestAtMost(r.s.ws[i], r.log) {
        var w := t.s.ws[i];
        AdvanceKeepsOldest(w, t.log, target);
        forall q ensures SlotSum(r.log, w.g, q)
                      == SlotSum(t.log, w.g, q) + (if Slot(t.s.pendingTime, w.g) == q then t.s.pending else 0) {
          SlotSumFlushed(t.log, t.waiting, t.s.pendingTime, w.g, q);
        }
        CreditKeepsOldest(AdvanceLevel(w, target), t.log, r.log, t.s.pending, t.s.pendingTime);
      }
    }
  }

  lemma StepSound(t: Traced, op: Op)
    requires Agrees(t) && Sound(t) && (op.Inc? ==> op.amount >= 0)
    ensures Sound(Step(t, op))
  {
    match op
    case Tick(now) => AdvancedSound(t, now);
    case Inc(a, time) =>
      if time > t.s.pendingTime {
        AdvancedSound(t, time);
        LatestAsideAdvance(t.s, Max(t.s.latest, time), time);
      } else if time <= t.s.pendingTime - t.s.ws[0].g {
        var r := Step(t, op);
        LateIsPast(t.s, time);
        forall i | 0 <= i < |t.s.ws| ensures OldestAtMost(r.s.ws[i], r.log) {
          var w := t.s.ws[i];
          forall q ensures SlotSum(r.log, w.g, q) == SlotSum(t.log, w.g, q) + (if Slot(time, w.g) == q then a else 0) {
            SlotSumOne(t.log, Entry(time, time, a), w.g, q);
          }
          CreditKeepsOldest(w, t.log, r.log, a, time);
        }
      }
  }

  /** With amounts that are not negative, the oldest slot only ever counts too little. */
  lemma {:induction false} RunSound(gs: seq<(int, int)>, ops: seq<Op>)
    requires Shape(gs) && forall op :: op in ops && op.Inc? ==> op.amount >= 0
    ensures Sound(Run(gs, ops))
  {
    if ops == [] {
      assert forall i :: 0 <= i < |gs| ==> Initial(gs).ws[i].Count(Initial(gs).ws[i].First()) == 0;
    } else {
      var init := ops[..|ops| - 1];
      assert ops[|ops| - 1] in ops && forall op :: op in init ==> op in ops;
      RunAgrees(gs, init);
      RunSound(gs, init);
      StepSound(Run(gs, init), ops[|ops| - 1]);
    }
  }

  // ---- Queries ------------------------------------------------------------------------------------------------------

  lemma {:induction false} RangeBySlots(log: seq<Entry>, g: int, p: int, q: int)
    requires g > 0 && p <= q
    ensures RangeSum(log, g * p, g * q) == SlotRange(log, g, p, q)
  {
    if log == [] {
      EmptySlots(g, p, q);
    } else {
      var init, e := log[..|log| - 1], log[|log| - 1];
      RangeBySlots(init, g, p, q);
      SlotRangeOne(init, e, g, p, q);
      assert log == init + [e];
      SlotOrder(e.credit, g, p);
      SlotOrder(e.credit, g, q);
    }
  }

  lemma {:induction false} CountRangeBySlots(w: Window, log: seq<Entry>, p: int, q: int)
    requires w.Valid() && Exact(w, log) && w.First() < p
    ensures CountRange(w, p, q) == SlotRange(log, w.g, p, q)
    decreases q - p
  {
    if p < q {
      CountRangeBySlots(w, log, p, q - 1);
    }
  }

  /** Slots from the window's oldest on, which falls short by what was taken. */
  lemma CountFromOldest(w: Window, log: seq<Entry>, taken: int, p: int, q: int)
    requires w.Valid() && Exact(w, log) && OldestShort(w, log, taken) && w.First() <= p
    ensures CountRange(w, p, q) == SlotRange(log, w.g, p, q) - (if p == w.First() && p < q then taken else 0)
  {
    if p == w.First() && p < q {
      CountRangeFront(w, p, q);
      SlotRangeFront(log, w.g, p, q);
      CountRangeBySlots(w, log, p + 1, q);
    } else if w.First() < p {
      CountRangeBySlots(w, log, p, q);
    }
  }

  /** A query of whole slots of the level that answers it, ended by the latest event, counts exactly the
      logged calls credited in its range, but for what was taken from the oldest slot. */
  lemma {:induction false} RangeAnswersLog(gs: seq<(int, int)>, ops: seq<Op>, now: int, start: int, end: int)
    requires Shape(gs)
    ensures var t := Step(Run(gs, ops), Tick(now));
            var w := t.s.ws[Chosen(t.s.ws, start, 0)];
            Query(t.s, start, end).Sum? && start % w.g == 0 && end % w.g == 0
            && w.Earliest() <= start <= end <= w.End() && end <= t.s.latest
            ==> Query(t.s, start, end) == Sum((RangeSum(t.log, start, end) - Short(t, start, end)) as real)
  {
    hide SumInterval, Step, Exact, OldestShort;
    RunAgrees(gs, ops);
    StepAgrees(Run(gs, ops), Tick(now));
    var t := Step(Run(gs, ops), Tick(now));
    var k := Chosen(t.s.ws, start, 0);
    var w := t.s.ws[k];
    if start % w.g == 0 && end % w.g == 0 && w.Earliest() <= start <= end <= w.End() && end <= t.s.latest {
      AlignedQuery(w, t.log, t.losses[k].taken, start, end, t.s.latest);
    }
  }

  /** What the answering level is short of: what was taken from its oldest slot, if the range has it. */
  function Short(t: Traced, start: int, end: int): int
    requires t.Valid()
  {
    var k := Chosen(t.s.ws, start, 0);
    if start == t.s.ws[k].Earliest() && start < end then t.losses[k].taken else 0
  }

  lemma AlignedQuery(w: Window, log: seq<Entry>, taken: int, start: int, end: int, latest: int)
    requires w.Valid() && Exact(w, log) && OldestShort(w, log, taken)
    requires start % w.g == 0 && end % w.g == 0 && w.Earliest() <= start <= end <= w.End() && end <= latest
    ensures SumInterval(w, start, end, latest)
         == (RangeSum(log, start, end) - (if start == w.Earliest() && start < end then taken else 0)) as real
  {
    hide Exact, OldestShort, SumInterval;
    var p, q := Slot(start, w.g), Slot(end, w.g);
    assert start == w.g * p && end == w.g * q;
    AlignedSlots(w, p, q);
    SumIsExact(w, p, q, latest);
    CountFromOldest(w, log, taken, p, q);
    RangeBySlots(log, w.g, p, q);
    SlotIs(w.g * w.First(), w.g, w.First());
  }

  lemma AlignedSlots(w: Window, p: int, q: int)
    requires w.Valid() && w.Earliest() <= w.g * p <= w.g * q <= w.End()
    ensures w.First() <= p <= q <= w.last
  {
    if p < w.First() {
      Scale(w.g, p + 1, w.First());
    }
    NextEnd(w.g, p);
    if q < p {
      Scale(w.g, q + 1, p);
    }
    if w.last < q {
      Scale(w.g, w.last + 1, q);
    }
    NextEnd(w.g, q);
    NextEnd(w.g, w.last);
  }

  /** What was called for times in [start, end), and has been credited. */
  function OwnSum(log: seq<Entry>, start: int, end: int): int {
    if log == [] then 0
    else
      var e := log[|log| - 1];
      OwnSum(log[..|log| - 1], start, end) + (if start <= e.time < end then e.amount else 0)
  }

  lemma {:induction false} CreditsNearTimes(log: seq<Entry>, g: int, start: int, end: int)
    requires NoDebit(log) && forall e :: e in log ==> e.credit - g < e.time < e.credit + g
    ensures OwnSum(log, start + g, end - g) <= RangeSum(log, start, end) <= OwnSum(log, start - g, end + g)
  {
    if log != [] {
      assert log[|log| - 1] in log;
      CreditsNearTimes(log[..|log| - 1], g, start, end);
    }
  }

  /** With amounts that are not negative, such a query counts, but for what was taken from the oldest
      slot, all the credited calls whose own times lie a finest granule inside the range, and none whose
      own times lie a finest granule outside. */
  lemma {:induction false} RangeNearTimes(gs: seq<(int, int)>, ops: seq<Op>, now: int, start: int, end: int)
    requires Shape(gs) && forall op :: op in ops && op.Inc? ==> op.amount >= 0
    ensures var t := Step(Run(gs, ops), Tick(now));
            var w, g := t.s.ws[Chosen(t.s.ws, start, 0)], t.s.ws[0].g;
            Query(t.s, start, end).Sum? && start % w.g == 0 && end % w.g == 0
            && w.Earliest() <= start <= end <= w.End() && end <= t.s.latest
            ==> (OwnSum(t.log, start + g, end - g) - Short(t, start, end)) as real <= Query(t.s, start, end).value
                <= (OwnSum(t.log, start - g, end + g) - Short(t, start, end)) as real
  {
    hide SumInterval, Step, Exact, OldestShort, OldestAtMost, OwnSum, RangeSum, Query, Short;
    var r := Run(gs, ops);
    RunAgrees(gs, ops);
    RunNear(gs, ops);
    RunSound(gs, ops);
    StepNear(r, Tick(now));
    StepSound(r, Tick(now));
    RangeAnswersLog(gs, ops, now, start, end);
    var t := Step(r, Tick(now));
    CreditsNearTimes(t.log, t.s.ws[0].g, start, end);
  }

  /** In every run the latest time is that of the latest call so far, or the zero time before any later. */
  lemma {:induction false} RunLatest(gs: seq<(int, int)>, ops: seq<Op>)
    requires Shape(gs)
    ensures var latest := Run(gs, ops).s.latest;
            latest >= 0 && (forall i :: 0 <= i < |ops| && ops[i].Inc? ==> ops[i].time <= latest)
            && (latest == 0 || exists i :: 0 <= i < |ops| && ops[i].Inc? && ops[i].time == latest)
  {
    hide CreditAll, AdvanceLevels;
    if ops != [] {
      var init, last := ops[..|ops| - 1], ops[|ops| - 1];
      RunLatest(gs, init);
      var before, latest := Run(gs, init).s.latest, Run(gs, ops).s.latest;
      assert latest == if last.Inc? then Max(before, last.time) else before;
      forall i | 0 <= i < |ops| && ops[i].Inc? ensures ops[i].time <= latest {
        assert i < |init| ==> init[i] == ops[i];
      }
      if latest != 0 && latest == before {
        var i :| 0 <= i < |init| && init[i].Inc? && init[i].time == latest;
        assert ops[i] == init[i];
      }
    }
  }

  // ---- What a refused range holds ------------------------------------------------------------------

  /** Nothing is credited past the finest level's end. */
  ghost predicate NotAhead(t: Traced)
    requires |t.s.ws| >= 1
  {
    t.s.pendingTime == t.s.ws[0].End() && forall e :: e in t.log ==> e.credit <= t.s.pendingTime
  }

  lemma StepNotAhead(t: Traced, op: Op)
    requires t.Valid() && NotAhead(t)
    ensures NotAhead(Step(t, op))
  {
    hide CreditLevel, Advance, Clear;
    var target := match op case Tick(now) => now case Inc(_, time) => time;
    AdvanceLevelReaches(t.s.ws[0], target);
    Scale(t.s.ws[0].g, t.s.ws[0].last, AdvanceLevel(t.s.ws[0], target).last);
  }

  lemma {:induction false} RunNotAhead(gs: seq<(int, int)>, ops: seq<Op>)
    requires Shape(gs)
    ensures NotAhead(Run(gs, ops))
  {
    hide Step;
    if ops != [] {
      RunNotAhead(gs, ops[..|ops| - 1]);
      StepNotAhead(Run(gs, ops[..|ops| - 1]), ops[|ops| - 1]);
    }
  }

  /** After any calls, a range is refused only when no call is credited in it but before the coarsest
      level's oldest slot, and none waits to be. */
  lemma RefusedHoldsNothing(gs: seq<(int, int)>, ops: seq<Op>, now: int, start: int, end: int)
    requires Shape(gs) && start <= end
    ensures var t := Step(Run(gs, ops), Tick(now));
            Query(t.s, start, end) == NotCovered ==>
              (forall e :: e in t.log && start <= e.credit < end ==> e.credit < t.s.ws[|t.s.ws| - 1].Earliest())
              && (t.waiting != [] ==>
                    !(start <= t.s.pendingTime < end) || t.s.pendingTime < t.s.ws[|t.s.ws| - 1].Earliest())
  {
    hide Step, SumInterval;
    RunNotAhead(gs, ops);
    StepNotAhead(Run(gs, ops), Tick(now));
  }

  // ---- Where the counts fall short --------------------------------------------------------------

  /** The oldest slot can lose calls although it is still in the window: a late call, then a clear. */
  lemma OldestSlotCanLose()
    ensures var t := Run([(1, 2), (10, 2)], [Inc(1, 109), Inc(1, 105), Inc(1, 110)]);
            |t.s.ws| == 2 && t.s.ws[1].First() == 10
            && t.s.ws[1].Count(10) == 1 && SlotSum(t.log, 10, 10) == 2
  {
    hide Increase, AdvanceTo, CreditAll, AdvanceLevels, SlotSum;
    var gs := [(1, 2), (10, 2)];
    var a, b, c := Inc(1, 109), Inc(1, 105), Inc(1, 110);
    assert [a][..0] == [] && [a, b][..1] == [a] && [a, b, c][..2] == [a, b];
    FirstCall();
    LateCall();
    ClearingCall();
    var s1 := Series([Window(1, 109, [0, 0]), Window(10, 10, [0, 0])], 1, 109, 109);
    var s2 := Series([Window(1, 109, [0, 0]), Window(10, 10, [0, 1])], 1, 109, 109);
    assert Run(gs, []).s == Initial(gs) && Run(gs, []).log == [] && Run(gs, []).waiting == [];
    assert Run(gs, [a]).s == s1 && Run(gs, [a]).log == [] && Run(gs, [a]).waiting == [Wait(109, 1)];
    assert Run(gs, [a, b]).s == s2 && Run(gs, [a, b]).log == [Entry(105, 105, 1)]
        && Run(gs, [a, b]).waiting == [Wait(109, 1)];
    assert Flushed([Wait(109, 1)], 109) == [Entry(109, 109, 1)];
    assert Run(gs, [a, b, c]).log == [Entry(105, 105, 1)] + [Entry(109, 109, 1)];
    SlotSumOne([], Entry(105, 105, 1), 10, 10);
    SlotSumOne([Entry(105, 105, 1)], Entry(109, 109, 1), 10, 10);
    EmptySum();
    assert [] + [Entry(105, 105, 1)] == [Entry(105, 105, 1)];
  }

  lemma EmptySum()
    ensures SlotSum([], 10, 10) == 0
  {}

  lemma FirstCall()
    ensures Increase(Initial([(1, 2), (10, 2)]), 1, 109)
         == Series([Window(1, 109, [0, 0]), Window(10, 10, [0, 0])], 1, 109, 109)
  {
    var ws := Initial([(1, 2), (10, 2)]).ws;
    assert Zeros(2) == [0, 0];
    assert ws == [Window(1, 0, [0, 0]), Window(10, 0, [0, 0])];
    assert AdvanceLevels(ws, 109) == [Window(1, 109, [0, 0]), Window(10, 10, [0, 0])];
    assert CreditAll(AdvanceLevels(ws, 109), 0, 0) == AdvanceLevels(ws, 109);
  }

  lemma LateCall()
    ensures Increase(Series([Window(1, 109, [0, 0]), Window(10, 10, [0, 0])], 1, 109, 109), 1, 105)
         == Series([Window(1, 109, [0, 0]), Window(10, 10, [0, 1])], 1, 109, 109)
  {
    var ws := [Window(1, 109, [0, 0]), Window(10, 10, [0, 0])];
    assert Slot(105, 1) == 105 && Slot(105, 10) == 10;
    assert CreditLevel(ws[0], 1, 105) == ws[0];
    assert CreditLevel(ws[1], 1, 105) == Add(ws[1], 1, 10) == Window(10, 10, [0, 1]);
    assert CreditAll(ws, 1, 105) == [Window(1, 109, [0, 0]), Window(10, 10, [0, 1])];
  }

  lemma ClearingCall()
    ensures var r := Increase(Series([Window(1, 109, [0, 0]), Window(10, 10, [0, 1])], 1, 109, 109), 1, 110);
            |r.ws| == 2 && r.ws[1] == Window(10, 11, [1, 0])
  {
    var ws := [Window(1, 109, [0, 0]), Window(10, 10, [0, 1])];
    assert AdvanceLevels(ws, 110)[1] == Window(10, 11, [0, 0]);
    assert CreditAll(AdvanceLevels(ws, 110), 1, 109)[1] == Window(10, 11, [1, 0]);
  }

  /** The second of two calls in one pending slot counts 1 whatever its amount. */
  lemma FoldedAmountIsOne(s: Series, amount: int, time: int)
    requires WindowsValid(s.ws) && s.pendingTime - s.ws[0].g < time <= s.pendingTime
    ensures Increase(s, amount, time).pending == s.pending + amount <==> amount == 1
  {}
}
