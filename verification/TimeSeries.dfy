/**
 The multi-resolution time series (internal/timeseries/timeseries.go): one window per granularity,
 and a slot of pending events at the finest. The class is proved against the state machine of
 module SeriesModel.
 */
module SeriesModel {
  import opened RingIndex
  import opened Windows

  // Pending events wait at pendingTime, the end of the finest level.
  datatype Series = Series(ws: seq<Window>, pending: int, pendingTime: int, latest: int)

  predicate WindowsValid(ws: seq<Window>) {
    |ws| >= 1 && forall i :: 0 <= i < |ws| ==> ws[i].Valid()
  }

  /** Every level reaches at least to one finest granule before the pending slot. */
  predicate Valid(s: Series) {
    WindowsValid(s.ws)
    && s.pendingTime == s.ws[0].End()
    && forall i :: 0 <= i < |s.ws| ==> Reaches(s.ws[i], s.pendingTime - s.ws[0].g)
  }

  /** The window's last slot is at or after the slot of t: t is not in its future. */
  predicate Reaches(w: Window, t: int) {
    w.Valid() && Slot(t, w.g) <= w.last
  }

  function Initial(gs: seq<(int, int)>): (s: Series)
    requires forall i :: 0 <= i < |gs| ==> gs[i].0 > 0 && gs[i].1 >= 1
  {
    Series(seq(|gs|, i requires 0 <= i < |gs| => Window(gs[i].0, 0, Zeros(gs[i].1))), 0, 0, 0)
  }

  /** increaseAtTime on one level: skipped when the time is older than the window. */
  function CreditLevel(w: Window, amount: int, time: int): (r: Window)
    requires w.Valid()
    ensures r.Valid() && r.g == w.g && r.last == w.last && |r.counts| == |w.counts|
    ensures time >= w.Earliest() && Reaches(w, time) ==>
      w.First() <= Slot(time, w.g) <= w.last && r == Add(w, amount, Slot(time, w.g))
  {
    SlotOrder(time, w.g, w.First());
    if time < w.Earliest() then w else AddWrapped(w, amount, Slot(time, w.g))
  }

  function CreditAll(ws: seq<Window>, amount: int, time: int): (r: seq<Window>)
    requires WindowsValid(ws)
    ensures |r| == |ws| && WindowsValid(r)
    ensures forall i :: 0 <= i < |ws| ==> r[i] == CreditLevel(ws[i], amount, time)
  {
    seq(|ws|, i requires 0 <= i < |ws| => CreditLevel(ws[i], amount, time))
  }

  /** advanceLevels on one level: cleared when the target is a whole window away. */
  function AdvanceLevel(w: Window, target: int): (r: Window)
    requires w.Valid()
    ensures r.Valid() && r.g == w.g && |r.counts| == |w.counts|
  {
    if target >= w.End() + (w.g * |w.counts| - w.g) then Clear(w, target) else Advance(w, target)
  }

  function AdvanceLevels(ws: seq<Window>, target: int): (r: seq<Window>)
    requires WindowsValid(ws)
    ensures |r| == |ws| && WindowsValid(r)
    ensures forall i :: 0 <= i < |ws| ==> r[i] == AdvanceLevel(ws[i], target)
  {
    seq(|ws|, i requires 0 <= i < |ws| => AdvanceLevel(ws[i], target))
  }

  /** advance: move the levels, then flush what was pending. */
  function AdvanceTo(s: Series, target: int): (r: Series)
    requires WindowsValid(s.ws)
    ensures |r.ws| == |s.ws| && WindowsValid(r.ws)
  {
    if target <= s.pendingTime then s
    else
      var ws := CreditAll(AdvanceLevels(s.ws, target), s.pending, s.pendingTime);
      Series(ws, 0, ws[0].End(), s.latest)
  }

  function Increase(s: Series, amount: int, time: int): (r: Series)
    requires WindowsValid(s.ws)
    ensures |r.ws| == |s.ws| && WindowsValid(r.ws)
  {
    var s := s.(latest := Max(s.latest, time));
    if time > s.pendingTime then AdvanceTo(s, time).(pending := amount)
    else if time > s.pendingTime - s.ws[0].g then s.(pending := s.pending + 1)
    else s.(ws := CreditAll(s.ws, amount, time))
  }

  datatype Answer = Sum(value: real) | BadRange | NotCovered

  /** The first level that covers the start, or the last. */
  function Chosen(ws: seq<Window>, start: int, i: nat): (k: nat)
    requires WindowsValid(ws) && i < |ws|
    ensures i <= k < |ws|
    ensures k < |ws| - 1 ==> start >= ws[k].Earliest()
    ensures forall j :: i <= j < k ==> start < ws[j].Earliest()
    decreases |ws| - i
  {
    if i == |ws| - 1 || start >= ws[i].Earliest() then i else Chosen(ws, start, i + 1)
  }

  /** Range on a series that was already advanced to the clock. */
  function Query(s: Series, start: int, end: int): Answer
    requires WindowsValid(s.ws)
  {
    if end < s.ws[|s.ws| - 1].Earliest() || start > s.ws[0].End() then NotCovered
    else Sum(SumInterval(s.ws[Chosen(s.ws, start, 0)], start, end, s.latest))
  }

  lemma ChosenStep(ws: seq<Window>, start: int, i: nat)
    requires WindowsValid(ws) && i < |ws|
    ensures Chosen(ws, start, i) == if i == |ws| - 1 || start >= ws[i].Earliest() then i else Chosen(ws, start, i + 1)
  {}

  lemma QueryIs(s: Series, start: int, end: int)
    requires WindowsValid(s.ws)
    ensures Query(s, start, end)
         == if end < s.ws[|s.ws| - 1].Earliest() || start > s.ws[0].End() then NotCovered
            else Sum(SumInterval(s.ws[Chosen(s.ws, start, 0)], start, end, s.latest))
  {
    hide SumInterval;
  }

  // ---- Which ranges are refused --------------------------------------------------------------------

  predicate Meets(w: Window, start: int, end: int) {
    w.Earliest() <= end && start <= w.End()
  }

  /** Some level reaches into the range. */
  predicate Reached(ws: seq<Window>, start: int, end: int) {
    exists i :: 0 <= i < |ws| && Meets(ws[i], start, end)
  }

  /** Exactly the ranges that no level reaches into are refused, if and only if the levels together reach
      without a gap from the coarsest's oldest slot to the finest's newest, and no further. */
  lemma RefusedWhenMissed(s: Series)
    requires WindowsValid(s.ws)
    ensures var oldest, newest := s.ws[|s.ws| - 1].Earliest(), s.ws[0].End();
            (forall start, end :: start <= end ==> (Query(s, start, end) == NotCovered <==> !Reached(s.ws, start, end)))
            <==> oldest <= newest && forall t :: Reached(s.ws, t, t) <==> oldest <= t <= newest
  {
    hide SumInterval, Window.Earliest, Window.End;
    var oldest, newest := s.ws[|s.ws| - 1].Earliest(), s.ws[0].End();
    if forall start, end :: start <= end ==> (Query(s, start, end) == NotCovered <==> !Reached(s.ws, start, end)) {
      forall t ensures Reached(s.ws, t, t) <==> oldest <= t <= newest {
        assert Query(s, t, t) == NotCovered <==> !Reached(s.ws, t, t);
      }
      LastMeets(s.ws[|s.ws| - 1]);
      assert Meets(s.ws[|s.ws| - 1], oldest, oldest);
      assert Reached(s.ws, oldest, oldest);
    }
    if oldest <= newest && forall t :: Reached(s.ws, t, t) <==> oldest <= t <= newest {
      forall start, end | start <= end ensures Query(s, start, end) == NotCovered <==> !Reached(s.ws, start, end) {
        PointReached(s.ws, start, end);
        if Query(s, start, end) != NotCovered {
          var t := Max(start, oldest);
          assert Reached(s.ws, t, t);
        }
      }
    }
  }

  /** A range is reached into exactly at some time in it. */
  lemma PointReached(ws: seq<Window>, start: int, end: int)
    requires WindowsValid(ws) && start <= end
    ensures Reached(ws, start, end) ==> exists t :: start <= t <= end && Reached(ws, t, t)
    ensures forall t :: start <= t <= end && Reached(ws, t, t) ==> Reached(ws, start, end)
  {
    hide Window.Earliest, Window.End;
    if Reached(ws, start, end) {
      var i :| 0 <= i < |ws| && Meets(ws[i], start, end);
      LastMeets(ws[i]);
      var t := Max(start, ws[i].Earliest());
      assert Meets(ws[i], t, t);
      assert Reached(ws, t, t);
    }
    forall t | start <= t <= end && Reached(ws, t, t) ensures Reached(ws, start, end) {
      var i :| 0 <= i < |ws| && Meets(ws[i], t, t);
      assert Meets(ws[i], start, end);
    }
  }

  lemma LastMeets(w: Window)
    requires w.Valid()
    ensures w.Earliest() <= w.End()
  {
    Scale(w.g, w.First(), w.last);
  }

  // ---- No level ever sees its future --------------------------------------------------------------

  lemma AdvanceLevelReaches(w: Window, target: int)
    requires w.Valid()
    ensures Reaches(AdvanceLevel(w, target), target)
    ensures AdvanceLevel(w, target).last >= w.last
    ensures target > w.End() ==> AdvanceLevel(w, target).End() - w.g < target
  {
    SlotOrder(target, w.g, w.last);
    if target >= w.End() + (w.g * |w.counts| - w.g) {
      Scale(w.g, 1, |w.counts|);
      var _ := Truncate(target, w.g);
    } else {
      AdvanceMeans(w, target);
      var r := Advance(w, target);
      SlotOrder(target, w.g, r.last + 1);
      Scale(w.g, r.last, r.last + 1);
    }
  }

  lemma ReachesEarlier(w: Window, t: int, u: int)
    requires Reaches(w, u) && t <= u
    ensures Reaches(w, t)
  {
    SlotsInOrder(t, u, w.g);
  }

  /** Whenever a pending slot is flushed, no level it is flushed to has it in its future. */
  lemma FlushIsPast(s: Series, target: int)
    requires Valid(s) && target > s.pendingTime
    ensures forall i :: 0 <= i < |s.ws| ==> Reaches(AdvanceLevels(s.ws, target)[i], s.pendingTime)
  {
    forall i | 0 <= i < |s.ws| ensures Reaches(AdvanceLevels(s.ws, target)[i], s.pendingTime) {
      AdvanceLevelReaches(s.ws[i], target);
      ReachesEarlier(AdvanceLevel(s.ws[i], target), s.pendingTime, target);
    }
  }

  /** A late event is never in any level's future. */
  lemma LateIsPast(s: Series, time: int)
    requires Valid(s) && time <= s.pendingTime - s.ws[0].g
    ensures forall i :: 0 <= i < |s.ws| ==> Reaches(s.ws[i], time)
  {
    forall i | 0 <= i < |s.ws| ensures Reaches(s.ws[i], time) {
      ReachesEarlier(s.ws[i], time, s.pendingTime - s.ws[0].g);
    }
  }

  lemma AdvanceToValid(s: Series, target: int)
    requires Valid(s)
    ensures Valid(AdvanceTo(s, target))
  {
    if target > s.pendingTime {
      var r := AdvanceTo(s, target);
      AdvanceLevelReaches(s.ws[0], target);
      forall i | 0 <= i < |r.ws| ensures Reaches(r.ws[i], r.pendingTime - r.ws[0].g) {
        AdvanceLevelReaches(s.ws[i], target);
        ReachesEarlier(AdvanceLevel(s.ws[i], target), r.pendingTime - r.ws[0].g, target);
      }
    }
  }

  lemma IncreaseCases(s: Series, amount: int, time: int)
    requires WindowsValid(s.ws)
    ensures var s1 := s.(latest := Max(s.latest, time));
            Increase(s, amount, time)
            == if time > s.pendingTime then AdvanceTo(s1, time).(pending := amount)
               else if time > s.pendingTime - s.ws[0].g then s1.(pending := s.pending + 1)
               else s1.(ws := CreditAll(s.ws, amount, time))
  {}

  lemma IncreaseValid(s: Series, amount: int, time: int)
    requires Valid(s)
    ensures Valid(Increase(s, amount, time))
  {
    AdvanceToValid(s.(latest := Max(s.latest, time)), time);
  }

  lemma LatestAside(s: Series, latest: int)
    ensures Valid(s.(latest := latest)) == Valid(s)
  {}

  lemma InitialValid(gs: seq<(int, int)>)
    requires |gs| >= 1 && forall i :: 0 <= i < |gs| ==> gs[i].0 > 0 && gs[i].1 >= 1
    ensures Valid(Initial(gs))
  {
    var s := Initial(gs);
    forall i | 0 <= i < |gs| ensures Reaches(s.ws[i], -gs[0].0) {
      SlotOrder(-gs[0].0, gs[i].0, 1);
    }
  }
}

module TimeSeries {
  import opened Windows
  import opened Levels
  import M = SeriesModel

  datatype Granularity = Granularity(granularity: int, count: int)

  /** checkGranularities: not empty, no count of 0, strictly increasing from above 0. */
  predicate GoodGranularities(gs: seq<Granularity>) {
    |gs| >= 1
    && (forall i :: 0 <= i < |gs| ==> gs[i].count != 0 && gs[i].granularity > 0)
    && (forall i :: 0 < i < |gs| ==> gs[i - 1].granularity < gs[i].granularity)
  }

  /** Strictly growing from one to the next is growing throughout. */
  lemma {:induction false} GrowingGranularities(gs: seq<Granularity>)
    ensures GoodGranularities(gs) <==>
      |gs| >= 1 && gs[0].granularity > 0 && (forall g :: g in gs ==> g.count != 0)
      && forall i, j :: 0 <= i < j < |gs| ==> gs[i].granularity < gs[j].granularity
  {
    if GoodGranularities(gs) {
      forall i, j | 0 <= i < j < |gs| ensures gs[i].granularity < gs[j].granularity {
        GrowsFrom(gs, i, j);
      }
    } else if |gs| >= 1 && gs[0].granularity > 0 && (forall g :: g in gs ==> g.count != 0)
              && forall i, j :: 0 <= i < j < |gs| ==> gs[i].granularity < gs[j].granularity {
      assert forall i :: 0 <= i < |gs| ==> gs[i] in gs && (i > 0 ==> gs[0].granularity < gs[i].granularity);
    }
  }

  lemma {:induction false} GrowsFrom(gs: seq<Granularity>, i: nat, j: nat)
    requires GoodGranularities(gs) && i < j < |gs|
    ensures gs[i].granularity < gs[j].granularity
    decreases j
  {
    if i < j - 1 {
      GrowsFrom(gs, i, j - 1);
    }
  }

  method CheckGranularities(gs: seq<Granularity>) returns (ok: bool)
    ensures ok <==> GoodGranularities(gs)
    ensures ok <==>
      |gs| >= 1 && gs[0].granularity > 0 && (forall g :: g in gs ==> g.count != 0)
      && forall i, j :: 0 <= i < j < |gs| ==> gs[i].granularity < gs[j].granularity
  {
    GrowingGranularities(gs);
    if |gs| == 0 {
      return false;
    }
    var last := 0;
    for i := 0 to |gs|
      invariant last == if i == 0 then 0 else gs[i - 1].granularity
      invariant last >= 0
      invariant forall j :: 0 <= j < i ==> gs[j].count != 0 && gs[j].granularity > 0
      invariant forall j :: 0 < j < i ==> gs[j - 1].granularity < gs[j].granularity
    {
      if gs[i].count == 0 {
        return false;
      }
      if gs[i].granularity <= last {
        return false;
      }
      last := gs[i].granularity;
    }
    ok := true;
  }

  function Shapes(gs: seq<Granularity>): (r: seq<(int, int)>)
    ensures |r| == |gs| && forall i :: 0 <= i < |gs| ==> r[i] == (gs[i].granularity, gs[i].count)
  {
    seq(|gs|, i requires 0 <= i < |gs| => (gs[i].granularity, gs[i].count))
  }

  /** A level a whole window behind is cleared; any other is moved on, and one of one bucket is not. */
  lemma AdvanceTest(l: Level, target: int)
    requires l.Valid()
    ensures var clears := target >= l.Latest() + l.Duration();
            M.AdvanceLevel(l.Abs(), target) == (if clears then Clear(l.Abs(), target) else Advance(l.Abs(), target))
            && (!clears ==> !(l.length == 1 && target > l.end))
  {
    hide Clear, Advance;
    LevelBounds(l);
  }

  class Series {
    const levels: seq<Level>
    var pending: int
    var pendingTime: int
    var latest: int

    ghost predicate Separate()
      reads this
    {
      |levels| >= 1
      && (forall i :: 0 <= i < |levels| ==> levels[i] as object != this)
      && (forall i, j :: 0 <= i < j < |levels| ==> levels[i] != levels[j] && levels[i].buckets != levels[j].buckets)
    }

    ghost predicate LevelsValid()
      reads this, levels, set l | l in levels :: l.buckets
    {
      Separate() && forall i :: 0 <= i < |levels| ==> levels[i].Valid()
    }

    ghost function Windows(): (ws: seq<Window>)
      requires LevelsValid()
      reads this, levels, set l | l in levels :: l.buckets
      ensures |ws| == |levels| && M.WindowsValid(ws)
      ensures forall i :: 0 <= i < |levels| ==> ws[i] == levels[i].Abs()
    {
      seq(|levels|, i requires 0 <= i < |levels| && LevelsValid()
                      reads this, levels, set l | l in levels :: l.buckets => levels[i].Abs())
    }

    ghost function Abs(): M.Series
      requires LevelsValid()
      reads this, levels, set l | l in levels :: l.buckets
    {
      M.Series(Windows(), pending, pendingTime, latest)
    }

    ghost predicate Valid()
      reads this, levels, set l | l in levels :: l.buckets
    {
      LevelsValid() && M.Valid(Abs())
    }

    constructor (levels: seq<Level>)
      requires |levels| >= 1 && forall i :: 0 <= i < |levels| ==> levels[i].Valid()
      requires forall i, j :: 0 <= i < j < |levels| ==> levels[i] != levels[j] && levels[i].buckets != levels[j].buckets
      ensures LevelsValid() && this.levels == levels && fresh(this)
      ensures pending == pendingTime == latest == 0
    {
      this.levels := levels;
      pending := 0;
      pendingTime := 0;
      latest := 0;
    }

    /** newTimeSeries. A negative count passes the check, and panics when its buckets are made. */
    static method New(gs: seq<Granularity>) returns (t: Series?, panicked: bool)
      ensures panicked <==> GoodGranularities(gs) && exists i :: 0 <= i < |gs| && gs[i].count < 0
      ensures t != null <==> GoodGranularities(gs) && !panicked
      ensures t != null ==>
        (forall i :: 0 <= i < |gs| ==> gs[i].count > 0) && t.Valid() && t.Abs() == M.Initial(Shapes(gs))
    {
      var ok := CheckGranularities(gs);
      if !ok {
        return null, false;
      }
      var levels: seq<Level> := [];
      for i := 0 to |gs|
        invariant |levels| == i
        invariant forall j :: 0 <= j < i ==> gs[j].count > 0
        invariant forall j :: 0 <= j < i ==> levels[j].Valid() && fresh(levels[j]) && fresh(levels[j].buckets)
        invariant forall j :: 0 <= j < i ==>
          levels[j].Abs() == Window(gs[j].granularity, 0, Zeros(gs[j].count))
        invariant forall j, k :: 0 <= j < k < i ==> levels[j] != levels[k] && levels[j].buckets != levels[k].buckets
      {
        if gs[i].count < 0 {
          return null, true;
        }
        var level := new Level(gs[i].granularity, gs[i].count);
        levels := levels + [level];
      }
      panicked := false;
      t := new Series(levels);
      M.InitialValid(Shapes(gs));
      assert t.Windows() == M.Initial(Shapes(gs)).ws;
    }

    /** increaseAtTime: every level that still covers the time. */
    method CreditLevels(amount: int, time: int)
      requires LevelsValid()
      modifies set l | l in levels :: l.buckets
      ensures LevelsValid() && Windows() == M.CreditAll(old(Windows()), amount, time)
    {
      hide Level.Abs, Level.Valid, Level.Duration, Level.Earliest, Level.Latest, Window.Earliest, M.Valid, Add, Windows,
           M.CreditAll, Slot;
      ghost var ws := Windows();
      for i := 0 to |levels|
        invariant LevelsValid()
        invariant forall j :: 0 <= j < i ==> levels[j].Abs() == M.CreditLevel(ws[j], amount, time)
        invariant forall j :: i <= j < |levels| ==> levels[j].Abs() == ws[j]
      {
        LevelBounds(levels[i]);
        if time < levels[i].Latest() - levels[i].Duration() {
          continue;
        }
        NoPanic(levels[i], time);
        var _, panicked := levels[i].IncreaseAtTime(amount, time);
        assert !panicked;
      }
    }

    method AdvanceLevels(target: int)
      requires LevelsValid()
      modifies levels, set l | l in levels :: l.buckets
      ensures LevelsValid() && Windows() == M.AdvanceLevels(old(Windows()), target)
    {
      hide Level.Abs, Level.Valid, Level.Duration, Level.Latest, M.Valid, Advance, Clear, Windows, M.AdvanceLevel,
           M.AdvanceLevels;
      ghost var ws := Windows();
      for i := 0 to |levels|
        invariant LevelsValid()
        invariant forall j :: 0 <= j < i ==> levels[j].Abs() == M.AdvanceLevel(ws[j], target)
        invariant forall j :: i <= j < |levels| ==> levels[j].Abs() == ws[j]
      {
        AdvanceTest(levels[i], target);
        if target >= levels[i].Latest() + levels[i].Duration() {
          levels[i].Clear(target);
          continue;
        }
        var panicked := levels[i].Advance(target);
        assert !panicked;
      }
    }

    method HandlePending()
      requires LevelsValid()
      modifies this`pending, this`pendingTime, set l | l in levels :: l.buckets
      ensures LevelsValid() && Windows() == M.CreditAll(old(Windows()), old(pending), old(pendingTime))
      ensures pending == 0 && pendingTime == Windows()[0].End()
    {
      CreditLevels(pending, pendingTime);
      pending := 0;
      pendingTime := levels[0].Latest();
    }

    method AdvanceTo(target: int)
      requires Valid()
      modifies this`pending, this`pendingTime, levels, set l | l in levels :: l.buckets
      ensures Valid() && Abs() == M.AdvanceTo(old(Abs()), target)
    {
      M.AdvanceToValid(Abs(), target);
      if !(target > pendingTime) {
        return;
      }
      AdvanceLevels(target);
      HandlePending();
    }

    /** The series' own counters are no part of its levels. */
    twostate lemma SameWindows()
      requires old(LevelsValid())
      requires forall l :: l in levels ==> unchanged(l) && unchanged(l.buckets)
      ensures LevelsValid() && Windows() == old(Windows())
    {
      assert forall i :: 0 <= i < |levels| ==> levels[i] in levels;
      assert forall i :: 0 <= i < |levels| ==> levels[i].Valid() && levels[i].Abs() == old(levels[i].Abs());
    }

    lemma FinestGranule()
      requires LevelsValid()
      ensures |levels| >= 1 && levels[0].granularity == Windows()[0].g
    {
      hide Level.Valid, Level.Abs;
    }

    method IncreaseAtTime(amount: int, time: int)
      requires Valid()
      modifies this, levels, set l | l in levels :: l.buckets
      ensures Valid() && Abs() == M.Increase(old(Abs()), amount, time)
    {
      hide M.Valid, M.CreditLevel, M.AdvanceLevel, M.CreditAll, M.AdvanceLevels, M.AdvanceTo, M.WindowsValid, M.Reaches,
           Level.Valid, Level.Abs, M.Increase, Windows, LevelsValid;
      ghost var s := Abs();
      M.IncreaseCases(s, amount, time);
      M.IncreaseValid(s, amount, time);
      M.LatestAside(s, Max(s.latest, time));
      if time > latest {
        latest := time;
      }
      SameWindows();
      FinestGranule();
      if time > pendingTime {
        AdvanceTo(time);
        label Advanced:
        pending := amount;
        SameWindows@Advanced();
      } else if time > pendingTime - levels[0].granularity {
        pending := pending + 1;
        SameWindows();
      } else {
        CreditLevels(amount, time);
      }
    }

    /** Range over [start, end), with the clock's time. */
    method Range(start: int, end: int, now: int) returns (r: M.Answer)
      requires Valid()
      modifies this`pending, this`pendingTime, levels, set l | l in levels :: l.buckets
      ensures Valid()
      ensures start > end ==> r == M.BadRange && Abs() == old(Abs())
      ensures start <= end ==> Abs() == M.AdvanceTo(old(Abs()), now) && r == M.Query(Abs(), start, end)
    {
      if start > end {
        return M.BadRange;
      }
      AdvanceTo(now);
      r := Answer(start, end);
    }

    /** Range once the series is at the clock: the finest level that covers the start answers. */
    method Answer(start: int, end: int) returns (r: M.Answer)
      requires Valid()
      ensures r == M.Query(Abs(), start, end)
    {
      hide M.CreditLevel, M.AdvanceLevel, M.CreditAll, M.AdvanceLevels, M.AdvanceTo, M.Valid, M.Reaches, SumInterval,
           Level.Abs, Level.Valid, Level.Duration, Level.Earliest, Windows;
      var biggest := levels[|levels| - 1];
      ghost var s, ws := Abs(), Windows();
      hide M.Query, M.Chosen;
      M.QueryIs(s, start, end);
      assert biggest.Latest() - biggest.Duration() == ws[|ws| - 1].Earliest() && levels[0].Latest() == ws[0].End() by {
        LevelBounds(biggest);
        LevelBounds(levels[0]);
      }
      if end < biggest.Latest() - biggest.Duration() || start > levels[0].Latest() {
        return M.NotCovered;
      }
      for i := 0 to |levels|
        invariant M.Chosen(ws, start, 0) == if i < |levels| then M.Chosen(ws, start, i) else |levels| - 1
      {
        assert levels[i].Earliest() == ws[i].Earliest() by {
          LevelBounds(levels[i]);
        }
        M.ChosenStep(ws, start, i);
        if !(start < levels[i].Earliest()) {
          var sum := levels[i].SumInterval(start, end, latest);
          return M.Sum(sum);
        }
      }
      var sum := levels[|levels| - 1].SumInterval(start, end, latest);
      r := M.Sum(sum);
    }
  }
}
