/** When a cached contention result still describes the engine it was computed from. */
module EngineCaches {
  import opened Collections
  import opened Contention
  import opened EngineCore
  import opened EngineLive
  import opened Heatmap
  import opened Model

  /** The cache holds the metrics of the timeline: the closed segments and the derived ones. */
  ghost predicate Coherent(c: Core, cache: seq<ResourceContention>) {
    exists segs :: Lists(c, segs) && MeasuresAll(cache, segs)
  }

  // ── Metrics do not depend on the order of the segments ─────────────────────

  lemma {:induction false} GroupConcat(a: seq<Segment>, b: seq<Segment>, r: string)
    ensures GroupOf(a + b, false, r) == GroupOf(a, false, r) + GroupOf(b, false, r)
  {
    if b == [] {
      assert a + b == a;
    } else {
      assert (a + b)[..|a + b| - 1] == a + b[..|b| - 1];
      GroupConcat(a, b[..|b| - 1], r);
    }
  }

  lemma {:induction false} GroupPermutes(a: seq<Segment>, b: seq<Segment>, r: string)
    requires multiset(a) == multiset(b)
    ensures multiset(GroupOf(a, false, r)) == multiset(GroupOf(b, false, r))
  {
    if a == [] {
      assert |multiset(b)| == 0;
    } else {
      var rest, x := a[..|a| - 1], a[|a| - 1];
      assert a == rest + [x];
      assert x in multiset(b);
      var i :| 0 <= i < |b| && b[i] == x;
      var front, back := b[..i], b[i + 1..];
      assert b == front + [x] + back;
      assert multiset(b) == multiset(front + back) + multiset{x};
      Cancel(multiset(front + back), multiset(rest), x);
      GroupPermutes(rest, front + back, r);
      GroupConcat(front, back, r);
      GroupConcat(front + [x], back, r);
      GroupConcat(front, [x], r);
      GroupConcat(rest, [x], r);
    }
  }

  function Level(t: int): Bounds -> int {
    (s: Bounds) => (if s.start <= t then 1 else 0) - (if s.end <= t then 1 else 0)
  }

  lemma {:induction false} TicksByLevel(segs: seq<Bounds>, t: int)
    ensures Total(LevelAt(t), Ticks(segs)) == Total(Level(t), segs)
  {
    if segs != [] {
      var rest, s := segs[..|segs| - 1], segs[|segs| - 1];
      TicksByLevel(rest, t);
      TotalSnoc(LevelAt(t), Ticks(rest) + [Tick(s.start, 1)], Tick(s.end, -1));
      TotalSnoc(LevelAt(t), Ticks(rest), Tick(s.start, 1));
      assert Ticks(segs) == Ticks(rest) + [Tick(s.start, 1)] + [Tick(s.end, -1)];
    }
  }

  lemma PeakPermutes(a: seq<Bounds>, b: seq<Bounds>, peak: int)
    requires multiset(a) == multiset(b) && IsPeak(a, peak)
    ensures IsPeak(b, peak)
  {
    forall t
      ensures Total(LevelAt(t), Ticks(a)) == Total(LevelAt(t), Ticks(b))
    {
      TicksByLevel(a, t);
      TicksByLevel(b, t);
      TotalPermutes(Level(t), a, b);
    }
  }

  lemma MeasuresPermute(m: ResourceContention, a: seq<Bounds>, b: seq<Bounds>)
    requires multiset(a) == multiset(b) && Measures(m, a)
    ensures Measures(m, b)
  {
    assert |multiset(a)| == |a| && |multiset(b)| == |b|;
    PeakPermutes(a, b, m.peak);
    TotalPermutes(Length(), a, b);
  }

  lemma MeasuresAllPermute(out: seq<ResourceContention>, a: seq<Segment>, b: seq<Segment>)
    requires multiset(a) == multiset(b) && MeasuresAll(out, a)
    ensures MeasuresAll(out, b)
  {
    forall m | m in out
      ensures Measures(m, GroupOf(b, false, m.resource))
    {
      GroupPermutes(a, b, m.resource);
      MeasuresPermute(m, GroupOf(a, false, m.resource), GroupOf(b, false, m.resource));
    }
    forall r | GroupOf(b, false, r) != []
      ensures GroupOf(a, false, r) != []
    {
      GroupPermutes(a, b, r);
      assert |multiset(GroupOf(b, false, r))| > 0;
    }
  }

  /** Whatever order the timeline is listed in, a coherent cache measures it. */
  lemma CoherentMeasures(c: Core, cache: seq<ResourceContention>, segs: seq<Segment>)
    requires Coherent(c, cache) && Lists(c, segs)
    ensures MeasuresAll(cache, segs)
  {
    var listed :| Lists(c, listed) && MeasuresAll(cache, listed);
    MeasuresAllPermute(cache, listed, segs);
  }

  // ── What a snapshot does to the metrics ────────────────────────────────────

  /** Open segments belong to known goroutines and start at real times. */
  ghost predicate Opened(c: Core) {
    forall id :: id in c.active ==> id in c.goroutines && c.active[id].start > 0
  }

  lemma EventOpened(c: Core, max: int, e: Event)
    requires WellKeyed(c) && Opened(c)
    ensures Opened(ApplyEvent(c, max, e)) && WellKeyed(ApplyEvent(c, max, e))
  {
  }

  lemma SnapshotOpened(c: Core, sn: Snapshot)
    requires WellKeyed(c) && Opened(c)
    ensures Opened(ApplySnapshot(c, sn)) && WellKeyed(ApplySnapshot(c, sn))
  {
  }

  /** The snapshot lengthens an open segment that waits for a resource. */
  predicate Overtakes(c: Core, sn: Snapshot) {
    var id := sn.goroutine;
    && id in c.active && id in c.goroutines && c.active[id].resource != ""
    && sn.time > c.goroutines[id].lastSeenAt && sn.time > c.active[id].start
  }

  function Own(c: Core, id: int): seq<Segment> {
    if Derived(c, id).Some? then [Derived(c, id).value] else []
  }

  ghost function Others(c: Core, id: int): set<Segment> {
    set k | k in c.active && k != id && Derived(c, k).Some? :: Derived(c, k).value
  }

  /** The timeline of a state, one goroutine's derived segment last. */
  lemma OwnLast(c: Core, id: int, others: seq<Segment>)
    requires multiset(others) == multiset(Others(c, id))
    ensures Lists(c, c.closed + others + Own(c, id))
  {
  }

  /** The own segment's share of a resource's group. */
  lemma OwnShare(base: seq<Segment>, own: seq<Segment>, r: string)
    requires |own| <= 1
    ensures GroupOf(base + own, false, r) == GroupOf(base, false, r)
      + (if own != [] && own[0].resource == r != "" then [Bounds(own[0].start, own[0].end)] else [])
  {
    GroupConcat(base, own, r);
    if own != [] {
      assert own[..0] == [];
      assert GroupOf(own[..0], false, r) == [];
    }
  }

  lemma SameGroups(out: seq<ResourceContention>, base: seq<Segment>, a: seq<Segment>, b: seq<Segment>)
    requires |a| <= 1 && |b| <= 1 && (a == b || forall s :: s in a + b ==> s.resource == "")
    requires MeasuresAll(out, base + a)
    ensures MeasuresAll(out, base + b)
  {
    forall r
      ensures GroupOf(base + a, false, r) == GroupOf(base + b, false, r)
    {
      OwnShare(base, a, r);
      OwnShare(base, b, r);
    }
  }

  /** A longer segment for a resource cannot have the same metrics. */
  lemma LongerDiffers(out: seq<ResourceContention>, base: seq<Segment>, a: seq<Segment>, s: Segment)
    requires |a| <= 1 && s.resource != "" && s.start < s.end
    requires a == [] || (a[0].resource == s.resource && a[0].start == s.start && a[0].end < s.end)
    requires MeasuresAll(out, base + a)
    ensures !MeasuresAll(out, base + [s])
  {
    var r := s.resource;
    OwnShare(base, a, r);
    OwnShare(base, [s], r);
    var g := GroupOf(base, false, r);
    TotalSnoc(Length(), g, Bounds(s.start, s.end));
    if a != [] {
      TotalSnoc(Length(), g, Bounds(a[0].start, a[0].end));
    } else {
      assert GroupOf(base + a, false, r) == g;
    }
    assert GroupOf(base + [s], false, r) != [];
    forall m | m in out && m.resource == r
      ensures !Measures(m, GroupOf(base + [s], false, r))
    {
      assert Measures(m, GroupOf(base + a, false, r));
    }
  }

  lemma OwnAfter(c: Core, sn: Snapshot)
    requires WellKeyed(c) && Opened(c) && sn.goroutine != 0
    ensures var c', id := ApplySnapshot(c, sn), sn.goroutine;
      && c'.closed == c.closed && Others(c', id) == Others(c, id)
      && (Overtakes(c, sn) ==>
            var a := c.active[id];
            Own(c', id) == [Segment(id, a.start, sn.time, a.state, a.reason, a.resource)])
      && (!Overtakes(c, sn) ==>
            Own(c', id) == Own(c, id) || forall s :: s in Own(c, id) + Own(c', id) ==> s.resource == "")
  {
  }

  /**
   A snapshot leaves a coherent cache coherent exactly when it does not lengthen an open segment that
   waits for a resource.
   */
  lemma SnapshotStaleIffOvertakes(c: Core, sn: Snapshot, cache: seq<ResourceContention>)
    requires WellKeyed(c) && Opened(c) && Coherent(c, cache)
    ensures Coherent(ApplySnapshot(c, sn), cache) <==> !Overtakes(c, sn)
  {
    if sn.goroutine != 0 {
      var others := ListOf(Others(c, sn.goroutine));
      if Overtakes(c, sn) {
        OvertakingStales(c, sn, cache, others);
      } else {
        OtherwiseKept(c, sn, cache, others);
      }
    } else {
      assert !Overtakes(c, sn);
    }
  }

  lemma OvertakingStales(c: Core, sn: Snapshot, cache: seq<ResourceContention>, others: seq<Segment>)
    requires WellKeyed(c) && Opened(c) && Coherent(c, cache) && sn.goroutine != 0 && Overtakes(c, sn)
    requires multiset(others) == multiset(Others(c, sn.goroutine))
    ensures !Coherent(ApplySnapshot(c, sn), cache)
  {
    var c', id := ApplySnapshot(c, sn), sn.goroutine;
    var base := c.closed + others;
    OwnAfter(c, sn);
    OwnLast(c, id, others);
    OwnLast(c', id, others);
    CoherentMeasures(c, cache, base + Own(c, id));
    OwnBefore(c, sn);
    LongerDiffers(cache, base, Own(c, id), Own(c', id)[0]);
    StaleIfNotMeasured(c', cache, base + Own(c', id));
  }

  lemma OwnBefore(c: Core, sn: Snapshot)
    requires Overtakes(c, sn)
    ensures forall s :: s in Own(c, sn.goroutine) ==>
      s.resource == c.active[sn.goroutine].resource && s.start == c.active[sn.goroutine].start && s.end < sn.time
  {
  }

  lemma StaleIfNotMeasured(c: Core, cache: seq<ResourceContention>, segs: seq<Segment>)
    requires Lists(c, segs) && !MeasuresAll(cache, segs)
    ensures !Coherent(c, cache)
  {
    if Coherent(c, cache) {
      CoherentMeasures(c, cache, segs);
    }
  }

  lemma OtherwiseKept(c: Core, sn: Snapshot, cache: seq<ResourceContention>, others: seq<Segment>)
    requires WellKeyed(c) && Opened(c) && Coherent(c, cache) && sn.goroutine != 0 && !Overtakes(c, sn)
    requires multiset(others) == multiset(Others(c, sn.goroutine))
    ensures Coherent(ApplySnapshot(c, sn), cache)
  {
    var c', id := ApplySnapshot(c, sn), sn.goroutine;
    var base := c.closed + others;
    OwnAfter(c, sn);
    OwnLast(c, id, others);
    OwnLast(c', id, others);
    CoherentMeasures(c, cache, base + Own(c, id));
    SameGroups(cache, base, Own(c, id), Own(c', id));
    FreshIfMeasured(c', cache, base + Own(c', id));
  }

  lemma FreshIfMeasured(c: Core, cache: seq<ResourceContention>, segs: seq<Segment>)
    requires Lists(c, segs) && MeasuresAll(cache, segs)
    ensures Coherent(c, cache)
  {
  }
}
