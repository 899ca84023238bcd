/** Walking an engine's maps: derived segments, records by id, and the events of an export. */
module EngineListing {
  import opened Collections
  import opened EngineCore
  import opened EngineExport
  import opened EngineLive
  import opened Model

  // ── Derived segments ───────────────────────────────────────────────────────

  /** The derived segments of some of the goroutines. */
  ghost function DerivedOf(c: Core, done: set<int>): set<Segment> {
    set id | id in done && id in c.active && Derived(c, id).Some? :: Derived(c, id).value
  }

  lemma DerivedMore(c: Core, done: set<int>, id: int)
    requires id !in done && id in c.active
    ensures multiset(DerivedOf(c, done + {id}))
         == multiset(DerivedOf(c, done)) + (if Derived(c, id).Some? then multiset{Derived(c, id).value} else multiset{})
  {
  }

  lemma DerivedAll(c: Core)
    ensures DerivedOf(c, c.active.Keys) == DerivedSet(c)
    ensures DerivedOf(c, {}) == {}
  {
  }

  /** By goroutine, then by start, then by end. */
  predicate SegmentBefore(a: Segment, b: Segment) {
    if a.goroutine != b.goroutine then a.goroutine < b.goroutine
    else if a.start != b.start then a.start < b.start
    else a.end < b.end
  }

  /** Goroutine by goroutine, by start, and for one start by end. */
  ghost predicate InTimelineOrder(segments: seq<Segment>) {
    forall i, j :: 0 <= i < j < |segments| ==>
      && segments[i].goroutine <= segments[j].goroutine
      && (segments[i].goroutine == segments[j].goroutine ==> segments[i].start <= segments[j].start)
      && (segments[i].goroutine == segments[j].goroutine && segments[i].start == segments[j].start ==>
            segments[i].end <= segments[j].end)
  }

  lemma SortedTimeline(segments: seq<Segment>)
    requires Sorted(segments, SegmentBefore)
    ensures InTimelineOrder(segments)
  {
    forall i, j | 0 <= i < j < |segments|
      ensures !SegmentBefore(segments[j], segments[i])
    {
    }
  }

  // ── Records in order of id ─────────────────────────────────────────────────

  predicate LowerId(a: Goroutine, b: Goroutine) {
    a.id < b.id
  }

  /** The records of a map, each once, in order of id. */
  ghost predicate ListsById(out: seq<Goroutine>, m: map<int, Goroutine>) {
    && (forall i, j :: 0 <= i < j < |out| ==> out[i].id < out[j].id)
    && (forall g :: g in out <==> g.id in m && m[g.id] == g)
  }

  /** The records of a map among those looked at, each once. */
  ghost predicate Gathers(out: seq<Goroutine>, m: map<int, Goroutine>, done: set<int>) {
    && (forall i, j :: 0 <= i < j < |out| ==> out[i].id != out[j].id)
    && (forall g :: g in out <==> g.id in m && g.id in done && m[g.id] == g)
  }

  lemma GatherStep(out: seq<Goroutine>, m: map<int, Goroutine>, done: set<int>, id: int)
    requires Gathers(out, m, done) && id !in done && (id in m ==> m[id].id == id)
    ensures Gathers(if id in m then out + [m[id]] else out, m, done + {id})
  {
  }

  lemma GatheredAll(out: seq<Goroutine>, m: map<int, Goroutine>, done: set<int>)
    requires m.Keys <= done && Gathers(out, m, done)
    ensures Gathers(out, m, m.Keys)
  {
  }

  method SortById(gathered: seq<Goroutine>, ghost m: map<int, Goroutine>) returns (out: seq<Goroutine>)
    requires Gathers(gathered, m, m.Keys)
    ensures ListsById(out, m)
  {
    out := SortSlice(gathered, LowerId);
    ghost var id := (g: Goroutine) => g.id;
    assert DistinctBy(id, gathered);
    DistinctPermutes(id, gathered, out);
    forall i, j | 0 <= i < j < |out|
      ensures out[i].id < out[j].id
    {
      assert id(out[i]) != id(out[j]) && !LowerId(out[j], out[i]);
    }
    forall g
      ensures g in out <==> g in gathered
    {
      assert g in multiset(out) <==> g in multiset(gathered);
    }
  }

  // ── The events of an export ────────────────────────────────────────────────

  datatype Numbered = Numbered(event: Event, seqNo: nat)

  predicate EarlierFirst(a: Numbered, b: Numbered) {
    if a.event.time == b.event.time then a.seqNo < b.seqNo else a.event.time < b.event.time
  }

  ghost function WhoAndWhat(): Numbered -> (int, Kind) {
    (x: Numbered) => (x.event.goroutine, x.event.kind)
  }

  /** The events numbered so far are those of the goroutines in done, a creation right before its state. */
  ghost predicate Numbers(events: seq<Numbered>, gs: map<int, Goroutine>, done: set<int>, last: nat) {
    && DistinctBy(WhoAndWhat(), events)
    && (forall x :: x in events ==> x.seqNo <= last && x.event.goroutine in done && x.event.goroutine in gs)
    && (forall x :: x in events ==> IsOwnEvent(x.event, gs[x.event.goroutine]))
    && (forall id :: id in done && id in gs ==> EventPair(events, gs[id]))
  }

  predicate IsOwnEvent(e: Event, g: Goroutine) {
    e == CreateEvent(g) || (g.state != Unset && e == StateEvent(g))
  }

  ghost predicate EventPair(events: seq<Numbered>, g: Goroutine) {
    exists n: nat :: Numbered(CreateEvent(g), n) in events
             && (g.state != Unset ==> Numbered(StateEvent(g), n + 1) in events)
  }

  function NumberedEvents(g: Goroutine, last: nat): seq<Numbered> {
    [Numbered(CreateEvent(g), last + 1)] + (if g.state != Unset then [Numbered(StateEvent(g), last + 2)] else [])
  }

  lemma PairStays(events: seq<Numbered>, more: seq<Numbered>, g: Goroutine)
    requires EventPair(events, g)
    ensures EventPair(events + more, g)
  {
  }

  lemma NumberStep(events: seq<Numbered>, gs: map<int, Goroutine>, done: set<int>, last: nat, id: int)
    requires Numbers(events, gs, done, last) && id in gs && id !in done && gs[id].id == id
    ensures var more := NumberedEvents(gs[id], last); Numbers(events + more, gs, done + {id}, last + |more|)
  {
    var g := gs[id];
    var more := NumberedEvents(g, last);
    var all := events + more;
    assert more[0] == Numbered(CreateEvent(g), last + 1);
    forall x | x in all
      ensures x in events
           || (x in more && x.event.goroutine == id && IsOwnEvent(x.event, g) && x.seqNo <= last + |more|)
    {
    }
    forall i, j | 0 <= i < j < |all|
      ensures WhoAndWhat()(all[i]) != WhoAndWhat()(all[j])
    {
      if j < |events| {
        assert WhoAndWhat()(events[i]) != WhoAndWhat()(events[j]);
      } else if i < |events| {
        assert events[i] in events;
      }
    }
    forall k | k in done + {id} && k in gs
      ensures EventPair(all, gs[k])
    {
      if k == id {
        assert Numbered(CreateEvent(g), last + 1) == all[|events|];
        assert g.state != Unset ==> Numbered(StateEvent(g), last + 2) == all[|events| + 1];
      } else {
        PairStays(events, more, gs[k]);
      }
    }
  }

  function EventsOf(numbered: seq<Numbered>): seq<Event> {
    seq(|numbered|, i requires 0 <= i < |numbered| => numbered[i].event)
  }

  /** Earlier events first. */
  ghost predicate InTimeOrder(events: seq<Event>) {
    forall i, j :: 0 <= i < j < |events| ==> events[i].time <= events[j].time
  }

  /** Exactly the creation and state events of the records. */
  ghost predicate EventsOfRecords(events: seq<Event>, gs: map<int, Goroutine>) {
    && (forall e :: e in events ==> e.goroutine in gs && IsOwnEvent(e, gs[e.goroutine]))
    && (forall id :: id in gs ==>
          CreateEvent(gs[id]) in events && (gs[id].state != Unset ==> StateEvent(gs[id]) in events))
  }

  lemma SortedNumbers(events: seq<Numbered>, sorted: seq<Numbered>, gs: map<int, Goroutine>, last: nat)
    requires Numbers(events, gs, gs.Keys, last) && multiset(events) == multiset(sorted)
    ensures Numbers(sorted, gs, gs.Keys, last)
  {
    DistinctPermutes(WhoAndWhat(), events, sorted);
    forall x
      ensures x in sorted <==> x in events
    {
      assert x in multiset(sorted) <==> x in multiset(events);
    }
    forall id | id in gs
      ensures EventPair(sorted, gs[id])
    {
      assert EventPair(events, gs[id]);
    }
  }

  lemma SortedExports(sorted: seq<Numbered>, gs: map<int, Goroutine>, last: nat, id: int) returns (i: nat, j: nat)
    requires Numbers(sorted, gs, gs.Keys, last) && Sorted(sorted, EarlierFirst)
    requires id in gs && gs[id].id == id && gs[id].state != Unset && gs[id].createdAt <= gs[id].lastSeenAt
    ensures Exports(EventsOf(sorted), gs[id], i, j)
  {
    var g := gs[id];
    assert EventPair(sorted, g);
    var n: nat :| Numbered(CreateEvent(g), n) in sorted && Numbered(StateEvent(g), n + 1) in sorted;
    i :| 0 <= i < |sorted| && sorted[i] == Numbered(CreateEvent(g), n);
    j :| 0 <= j < |sorted| && sorted[j] == Numbered(StateEvent(g), n + 1);
    assert EarlierFirst(sorted[i], sorted[j]);
    NoOtherEvent(sorted, gs, last, id, i, j);
  }

  lemma NoOtherEvent(sorted: seq<Numbered>, gs: map<int, Goroutine>, last: nat, id: int, i: nat, j: nat)
    requires Numbers(sorted, gs, gs.Keys, last) && id in gs && gs[id].id == id && i < |sorted| && j < |sorted|
    requires sorted[i].event == CreateEvent(gs[id]) && sorted[j].event == StateEvent(gs[id])
    ensures forall k :: 0 <= k < |sorted| && k != i && k != j ==> sorted[k].event.goroutine != id
  {
  }

  lemma SortedInTime(sorted: seq<Numbered>)
    requires Sorted(sorted, EarlierFirst)
    ensures InTimeOrder(EventsOf(sorted))
  {
    forall i, j | 0 <= i < j < |sorted|
      ensures EventsOf(sorted)[i].time <= EventsOf(sorted)[j].time
    {
      assert !EarlierFirst(sorted[j], sorted[i]);
    }
  }

  lemma SortedOwn(sorted: seq<Numbered>, gs: map<int, Goroutine>, last: nat, e: Event)
    requires Numbers(sorted, gs, gs.Keys, last) && e in EventsOf(sorted)
    ensures e.goroutine in gs && IsOwnEvent(e, gs[e.goroutine])
  {
    var i :| 0 <= i < |sorted| && EventsOf(sorted)[i] == e;
    assert sorted[i] in sorted;
  }

  lemma SortedEvents(sorted: seq<Numbered>, gs: map<int, Goroutine>, last: nat)
    requires Numbers(sorted, gs, gs.Keys, last) && Sorted(sorted, EarlierFirst)
    ensures InTimeOrder(EventsOf(sorted)) && EventsOfRecords(EventsOf(sorted), gs)
  {
    SortedInTime(sorted);
    forall e | e in EventsOf(sorted)
      ensures e.goroutine in gs && IsOwnEvent(e, gs[e.goroutine])
    {
      SortedOwn(sorted, gs, last, e);
    }
    forall id | id in gs
      ensures CreateEvent(gs[id]) in EventsOf(sorted)
      ensures gs[id].state != Unset ==> StateEvent(gs[id]) in EventsOf(sorted)
    {
      assert EventPair(sorted, gs[id]);
      assert forall x :: x in sorted ==> InEvents(sorted, x);
    }
  }

  ghost predicate InEvents(sorted: seq<Numbered>, x: Numbered)
    requires x in sorted
    ensures InEvents(sorted, x) && x.event in EventsOf(sorted)
  {
    var i :| 0 <= i < |sorted| && sorted[i] == x;
    assert EventsOf(sorted)[i] == x.event;
    true
  }

  /** The sorted events export the records. */
  lemma SortedIsExport(c: Core, sorted: seq<Numbered>, last: nat, capture: Capture)
    requires WellKeyed(c) && Numbers(sorted, c.goroutines, c.goroutines.Keys, last) && Sorted(sorted, EarlierFirst)
    requires capture.events == EventsOf(sorted)
    requires capture.parents == (map id | id in c.goroutines && c.goroutines[id].parent != 0 :: c.goroutines[id].parent)
    requires capture.labels
          == (map id | id in c.goroutines && c.goroutines[id].labels != map[] :: c.goroutines[id].labels)
    ensures IsExport(c, capture)
  {
    SortedEvents(sorted, c.goroutines, last);
    forall id | id in c.goroutines && c.goroutines[id].state != Unset
                && c.goroutines[id].createdAt <= c.goroutines[id].lastSeenAt
      ensures exists i, j :: Exports(capture.events, c.goroutines[id], i, j)
    {
      var i, j := SortedExports(sorted, c.goroutines, last, id);
    }
  }
}
