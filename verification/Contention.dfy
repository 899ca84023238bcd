/** Concurrent waiters: the sweep line over segment ends, and the time-binned heatmap. */
module Contention {
  import opened Collections

  datatype Bounds = Bounds(start: int, end: int)

  ghost predicate Proper(segs: seq<Bounds>) {
    forall s :: s in segs ==> s.start < s.end
  }

  // ── peakConcurrent ─────────────────────────────────────────────────────────

  function ActiveAt(t: int): Bounds -> int {
    (s: Bounds) => if s.start <= t < s.end then 1 else 0
  }

  /** How many segments are under way at an instant. */
  function Concurrent(segs: seq<Bounds>, t: int): int {
    Total(ActiveAt(t), segs)
  }

  /** One end of a segment: delta is 1 at its start and -1 at its end. */
  datatype Tick = Tick(ns: int, delta: int)

  function LevelAt(t: int): Tick -> int {
    (e: Tick) => if e.ns <= t then e.delta else 0
  }

  function Ticks(segs: seq<Bounds>): seq<Tick> {
    if segs == [] then []
    else
      var s := segs[|segs| - 1];
      Ticks(segs[..|segs| - 1]) + [Tick(s.start, 1), Tick(s.end, -1)]
  }

  /** Starts up to t minus ends up to t: the concurrent segments, when every segment starts before it ends. */
  lemma {:induction false} LevelIsConcurrent(segs: seq<Bounds>, t: int)
    requires Proper(segs)
    ensures Total(LevelAt(t), Ticks(segs)) == Concurrent(segs, t)
  {
    if segs != [] {
      var rest, s := segs[..|segs| - 1], segs[|segs| - 1];
      LevelIsConcurrent(rest, t);
      TotalSnoc(LevelAt(t), Ticks(rest) + [Tick(s.start, 1)], Tick(s.end, -1));
      TotalSnoc(LevelAt(t), Ticks(rest), Tick(s.start, 1));
      assert Ticks(segs) == Ticks(rest) + [Tick(s.start, 1)] + [Tick(s.end, -1)];
    }
  }

  predicate TickBefore(a: Tick, b: Tick) {
    if a.ns != b.ns then a.ns < b.ns else a.delta < b.delta
  }

  function Delta(): Tick -> int {
    (e: Tick) => e.delta
  }

  ghost predicate UnitTicks(ticks: seq<Tick>) {
    forall e :: e in ticks ==> e.delta == 1 || e.delta == -1
  }

  /** The level at t is the running sum after the last tick not later than t. */
  lemma {:induction false} LevelIsPrefix(ticks: seq<Tick>, t: int, k: nat)
    requires k <= |ticks|
    requires forall i :: 0 <= i < k ==> ticks[i].ns <= t
    requires forall i :: k <= i < |ticks| ==> ticks[i].ns > t
    ensures Total(LevelAt(t), ticks) == Total(Delta(), ticks[..k])
  {
    if k < |ticks| {
      LevelIsPrefix(ticks[..|ticks| - 1], t, k);
      assert ticks[..|ticks| - 1][..k] == ticks[..k];
    } else if ticks != [] {
      LevelIsPrefix(ticks[..k - 1], t, k - 1);
      assert ticks[..k][..k - 1] == ticks[..k - 1] == ticks[..k - 1][..k - 1];
      assert ticks[..k] == ticks;
    }
  }

  /** Where the ticks not later than t end. */
  lemma Cut(ticks: seq<Tick>, t: int) returns (k: nat)
    requires Sorted(ticks, TickBefore)
    ensures k <= |ticks|
    ensures forall i :: 0 <= i < k ==> ticks[i].ns <= t
    ensures forall i :: k <= i < |ticks| ==> ticks[i].ns > t
  {
    k := |ticks|;
    while k > 0 && ticks[k - 1].ns > t
      invariant k <= |ticks| && forall i :: k <= i < |ticks| ==> ticks[i].ns > t
    {
      k := k - 1;
    }
    forall i | 0 <= i < k
      ensures ticks[i].ns <= t
    {
      assert i < k - 1 ==> !TickBefore(ticks[k - 1], ticks[i]);
    }
  }

  /** After a start tick the rest of its instant only adds starts, ends having been sorted first. */
  lemma StartsOnly(ticks: seq<Tick>, k: nat, m: nat)
    requires Sorted(ticks, TickBefore) && UnitTicks(ticks)
    requires 0 < k <= m <= |ticks| && ticks[k - 1].delta == 1
    requires forall i :: 0 <= i < m ==> ticks[i].ns <= ticks[k - 1].ns
    ensures Total(Delta(), ticks[..m]) == Total(Delta(), ticks[..k]) + (m - k)
    decreases m
  {
    if k < m {
      StartsOnly(ticks, k, m - 1);
      assert ticks[..m][..m - 1] == ticks[..m - 1];
      assert !TickBefore(ticks[m - 1], ticks[k - 1]);
      assert ticks[m - 1] in ticks;
    }
  }

  /** peak is the greatest level over all instants, and at least 0. */
  ghost predicate IsPeak(segs: seq<Bounds>, peak: int) {
    && peak >= 0
    && (forall t :: Total(LevelAt(t), Ticks(segs)) <= peak)
    && (peak > 0 ==> exists t :: Total(LevelAt(t), Ticks(segs)) == peak)
  }

  /** peak is the greatest number of segments under way at one instant. */
  ghost predicate IsGreatestConcurrency(segs: seq<Bounds>, peak: int) {
    && peak >= 0
    && (forall t :: Concurrent(segs, t) <= peak)
    && (peak > 0 ==> exists t :: Concurrent(segs, t) == peak)
  }

  method PeakConcurrent(segs: seq<Bounds>) returns (peak: int)
    ensures IsPeak(segs, peak)
    ensures Proper(segs) ==> IsGreatestConcurrency(segs, peak)
    ensures Proper(segs) && segs != [] ==> peak > 0
  {
    if |segs| == 0 {
      return 0;
    }
    var events: seq<Tick> := [];
    for i := 0 to |segs|
      invariant events == Ticks(segs[..i])
    {
      assert segs[..i + 1][..i] == segs[..i];
      events := events + [Tick(segs[i].start, 1), Tick(segs[i].end, -1)];
    }
    assert segs[..|segs|] == segs;
    var sorted := SortSlice(events, TickBefore);
    UnitTicksOf(segs);
    SameTicks(events, sorted);
    ghost var top;
    peak, top := Sweep(sorted);
    SweepExact(segs, sorted, peak, top);
  }

  lemma {:induction false} UnitTicksOf(segs: seq<Bounds>)
    ensures UnitTicks(Ticks(segs))
  {
    if segs != [] {
      UnitTicksOf(segs[..|segs| - 1]);
    }
  }

  lemma SameTicks(events: seq<Tick>, sorted: seq<Tick>)
    requires UnitTicks(events) && multiset(events) == multiset(sorted)
    ensures UnitTicks(sorted)
  {
    forall e | e in sorted
      ensures e in events
    {
      assert e in multiset(sorted);
    }
  }

  /** The greatest running sum, and the start tick that first reaches it. */
  method Sweep(sorted: seq<Tick>) returns (peak: int, ghost top: nat)
    requires UnitTicks(sorted)
    ensures peak >= 0 && top <= |sorted|
    ensures forall k :: 0 <= k <= |sorted| ==> Total(Delta(), sorted[..k]) <= peak
    ensures peak > 0 ==> top > 0 && sorted[top - 1].delta == 1 && Total(Delta(), sorted[..top]) == peak
  {
    peak, top := 0, 0;
    var cur := 0;
    for i := 0 to |sorted|
      invariant cur == Total(Delta(), sorted[..i]) && cur <= peak
      invariant forall k :: 0 <= k <= i ==> Total(Delta(), sorted[..k]) <= peak
      invariant 0 <= top <= i && peak >= 0
      invariant peak > 0 ==> top > 0 && sorted[top - 1].delta == 1 && Total(Delta(), sorted[..top]) == peak
    {
      assert sorted[..i + 1][..i] == sorted[..i];
      assert sorted[i] in sorted;
      cur := cur + sorted[i].delta;
      if cur > peak {
        peak, top := cur, i + 1;
      }
    }
  }

  lemma SweepExact(segs: seq<Bounds>, sorted: seq<Tick>, peak: int, top: nat)
    requires multiset(sorted) == multiset(Ticks(segs)) && Sorted(sorted, TickBefore) && UnitTicks(sorted)
    requires top <= |sorted| && peak >= 0
    requires forall k :: 0 <= k <= |sorted| ==> Total(Delta(), sorted[..k]) <= peak
    requires peak > 0 ==> top > 0 && sorted[top - 1].delta == 1 && Total(Delta(), sorted[..top]) == peak
    ensures IsPeak(segs, peak)
    ensures Proper(segs) ==> IsGreatestConcurrency(segs, peak)
    ensures Proper(segs) && segs != [] ==> peak > 0
  {
    forall t
      ensures Total(LevelAt(t), Ticks(segs)) <= peak
    {
      TotalPermutes(LevelAt(t), sorted, Ticks(segs));
      var k := Cut(sorted, t);
      LevelIsPrefix(sorted, t, k);
    }
    if peak > 0 {
      var t := sorted[top - 1].ns;
      TotalPermutes(LevelAt(t), sorted, Ticks(segs));
      var m := Cut(sorted, t);
      LevelIsPrefix(sorted, t, m);
      StartsOnly(sorted, top, m);
      assert Total(LevelAt(t), Ticks(segs)) == peak;
    }
    if Proper(segs) {
      forall t
        ensures Total(LevelAt(t), Ticks(segs)) == Concurrent(segs, t)
      {
        LevelIsConcurrent(segs, t);
      }
      if segs != [] {
        OwnStart(segs);
        assert Concurrent(segs, segs[|segs| - 1].start) <= peak;
      }
    }
  }

  lemma {:induction false} ConcurrentPositive(segs: seq<Bounds>, t: int)
    ensures Concurrent(segs, t) >= 0
  {
    if segs != [] {
      ConcurrentPositive(segs[..|segs| - 1], t);
    }
  }

  lemma OwnStart(segs: seq<Bounds>)
    requires Proper(segs) && segs != []
    ensures Concurrent(segs, segs[|segs| - 1].start) >= 1
  {
    var s := segs[|segs| - 1];
    assert s in segs;
    ConcurrentPositive(segs[..|segs| - 1], s.start);
  }
}
