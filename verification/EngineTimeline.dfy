/** The timeline an engine shows is the meaning of the events it was given. */
module EngineTimeline {
  import opened Collections
  import opened EngineCore
  import opened Model
  import opened Options
  import opened StateMachine

  /** Lifecycle events with real times, in order goroutine by goroutine. */
  ghost predicate TimelineLog(log: seq<Event>) {
    && (forall e :: e in log ==>
          e.goroutine != 0 && e.time > 0 && (e.kind.Create? || e.kind.Start? || e.kind.StateChange? || e.kind.End?))
    && (forall i, j :: 0 <= i < j < |log| && log[i].goroutine == log[j].goroutine ==> log[i].time <= log[j].time)
  }

  // ── What a log says ────────────────────────────────────────────────────────

  /** The record a goroutine's own events lead to. */
  function After(log: seq<Event>, id: int): Goroutine {
    if log == [] then ZERO
    else
      var rest, e := log[..|log| - 1], log[|log| - 1];
      if e.goroutine == id then Advance(After(rest, id), e) else After(rest, id)
  }

  /** The record after the goroutine's last event at or before t. */
  function StateAt(log: seq<Event>, id: int, t: int): Goroutine {
    if log == [] then ZERO
    else
      var rest, e := log[..|log| - 1], log[|log| - 1];
      if e.goroutine == id && e.time <= t then After(log, id) else StateAt(rest, id, t)
  }

  ghost predicate SeenBy(log: seq<Event>, id: int, t: int) {
    exists e :: e in log && e.goroutine == id && e.time <= t
  }

  // ── Records ────────────────────────────────────────────────────────────────

  ghost predicate Mentions(log: seq<Event>, id: int) {
    exists e :: e in log && e.goroutine == id
  }

  lemma MentionsSnoc(log: seq<Event>, id: int)
    requires log != []
    ensures Mentions(log, id) <==> Mentions(log[..|log| - 1], id) || log[|log| - 1].goroutine == id
  {
  }

  lemma AdvanceId(g: Goroutine, e: Event)
    requires e.goroutine != 0
    ensures Advance(g, e).id == if g.id == 0 then e.goroutine else g.id
  {
  }

  lemma {:induction false} IdAfter(log: seq<Event>, id: int)
    requires id != 0
    ensures After(log, id).id == if Mentions(log, id) then id else 0
  {
    if log != [] {
      IdAfter(log[..|log| - 1], id);
      MentionsSnoc(log, id);
      if log[|log| - 1].goroutine == id {
        AdvanceId(After(log[..|log| - 1], id), log[|log| - 1]);
      }
    }
  }

  /** An engine's record of a goroutine depends on that goroutine's events alone. */
  lemma {:induction false} RecordsFollowLog(log: seq<Event>, max: int, id: int)
    requires id != 0
    ensures Lookup(Run(log, max).goroutines, id) == After(log, id)
    ensures id in Run(log, max).goroutines <==> Mentions(log, id)
  {
    if log != [] {
      var rest, e := log[..|log| - 1], log[|log| - 1];
      RecordsFollowLog(rest, max, id);
      MentionsSnoc(log, id);
      if e.goroutine != 0 {
        RecordsFollowLog(rest, max, e.goroutine);
        IdAfter(rest, e.goroutine);
        AdvanceId(After(rest, e.goroutine), e);
        StoredUnder(Run(rest, max), max, e);
      }
    }
  }

  /** An event's record goes under its own id. */
  lemma StoredUnder(c: Core, max: int, e: Event)
    requires e.goroutine != 0 && Lookup(c.goroutines, e.goroutine).id in {0, e.goroutine}
    ensures ApplyEvent(c, max, e).goroutines
         == c.goroutines[e.goroutine := Advance(Lookup(c.goroutines, e.goroutine), e)]
  {
    AdvanceId(Lookup(c.goroutines, e.goroutine), e);
  }

  lemma AdvanceTime(g: Goroutine, e: Event)
    requires e.time > 0
    ensures Advance(g, e).lastSeenAt == e.time
    ensures Advance(g, e).createdAt == if g.createdAt == 0 then e.time else g.createdAt
  {
  }

  lemma LogPrefix(log: seq<Event>)
    requires TimelineLog(log) && log != []
    ensures TimelineLog(log[..|log| - 1])
    ensures forall x :: x in log <==> x in log[..|log| - 1] || x == log[|log| - 1]
    ensures forall x :: x in log && x.goroutine == log[|log| - 1].goroutine ==> x.time <= log[|log| - 1].time
  {
  }

  /** LastSeenAt is the time of the goroutine's last event. */
  lemma {:induction false} LastSeen(log: seq<Event>, id: int)
    requires TimelineLog(log)
    ensures forall e :: e in log && e.goroutine == id ==> e.time <= After(log, id).lastSeenAt
    ensures After(log, id).lastSeenAt == 0 || LatestOf(log, id, After(log, id).lastSeenAt)
  {
    if log != [] {
      var rest, e := log[..|log| - 1], log[|log| - 1];
      LogPrefix(log);
      LastSeen(rest, id);
      if e.goroutine == id {
        AdvanceTime(After(rest, id), e);
        assert e in log;
      }
    }
  }

  ghost predicate LatestOf(log: seq<Event>, id: int, t: int) {
    exists e :: e in log && e.goroutine == id && e.time == t
  }

  // ── Segments ───────────────────────────────────────────────────────────────

  function Covers(id: int, t: int): Segment -> int {
    (s: Segment) => if s.goroutine == id && s.start <= t < s.end then 1 else 0
  }

  predicate Shows(s: Segment, g: Goroutine) {
    s.state == g.state && s.reason == g.reason && s.resource == g.resource
  }

  /** How a goroutine's record and its segments fit together. */
  ghost predicate Fits(c: Core, g: Goroutine, id: int) {
    && (id in c.active <==> ShouldTrack(g.state))
    && (id in c.active ==> Matches(c.active[id], g) && 0 < c.active[id].start <= g.lastSeenAt)
    && (forall s :: s in c.closed && s.goroutine == id ==>
          s.start < s.end <= if id in c.active then c.active[id].start else g.lastSeenAt)
    && (IsWaitState(g.state) ==> id in c.active && g.waitNS == g.lastSeenAt - c.active[id].start)
    && (!IsWaitState(g.state) ==> g.waitNS == 0 && g.reason == NoReason && g.resource == "")
  }

  /** At t exactly one segment, closed or open-ended, covers a tracked state, and none an untracked one. */
  ghost predicate CoveredAt(c: Core, id: int, t: int, k: Goroutine) {
    && Total(Covers(id, t), c.closed) + (if id in c.active && c.active[id].start <= t then 1 else 0)
       == (if ShouldTrack(k.state) then 1 else 0)
    && (forall s :: s in c.closed && Covers(id, t)(s) == 1 ==> Shows(s, k))
    && (id in c.active && c.active[id].start <= t ==> Matches(c.active[id], k))
  }

  lemma {:induction false} NoneCover(segs: seq<Segment>, id: int, t: int)
    requires forall s :: s in segs ==> Covers(id, t)(s) == 0
    ensures Total(Covers(id, t), segs) == 0
  {
    if segs != [] {
      assert segs[|segs| - 1] in segs;
      NoneCover(segs[..|segs| - 1], id, t);
    }
  }

  /** One event keeps its own goroutine's record and segments fitting. */
  lemma StepFits(c: Core, e: Event, g: Goroutine)
    requires e.goroutine != 0 && e.time > 0 && IsTimelineKind(e.kind)
    requires g == Lookup(c.goroutines, e.goroutine) && (g.id == 0 || g.id == e.goroutine)
    requires Fits(c, g, e.goroutine) && g.lastSeenAt <= e.time
    ensures Fits(ApplyEvent(c, 0, e), Advance(g, e), e.goroutine)
    ensures ApplyEvent(c, 0, e).goroutines[e.goroutine] == Advance(g, e)
  {
    var next := Advance(g, e);
    WaitStep(g, e);
    AdvanceId(g, e);
    var c' := ApplyEvent(c, 0, e);
    var (open, segment) := Switch(e.goroutine, OpenOf(c.active, e.goroutine), g, next, e);
    assert OpenOf(c'.active, e.goroutine) == open;
    assert c'.closed == c.closed + (if segment.Some? then [segment.value] else []);
  }

  /** What an event does to the wait time and the condition. */
  lemma WaitStep(g: Goroutine, e: Event)
    requires e.time > 0 && IsTimelineKind(e.kind)
    ensures var n := Advance(g, e);
      && n.lastSeenAt == e.time && n.state != Unset
      && (IsWaitState(n.state) && SameCondition(g, n) ==> n.waitNS == g.waitNS + ElapsedNS(g.lastSeenAt, e.time))
      && (IsWaitState(n.state) && !SameCondition(g, n) ==> n.waitNS == 0)
      && (!IsWaitState(n.state) ==> n.waitNS == 0 && n.reason == NoReason && n.resource == "")
  {
  }

  /** Before an event's time it changes nothing that is shown. */
  lemma StepBefore(c: Core, e: Event, g: Goroutine, t: int, k: Goroutine)
    requires e.goroutine != 0 && e.time > 0 && IsTimelineKind(e.kind)
    requires g == Lookup(c.goroutines, e.goroutine) && Fits(c, g, e.goroutine)
    requires t < e.time && CoveredAt(c, e.goroutine, t, k)
    ensures CoveredAt(ApplyEvent(c, 0, e), e.goroutine, t, k)
  {
    var id, next := e.goroutine, Advance(g, e);
    var (open, segment) := Switch(id, OpenOf(c.active, id), g, next, e);
    var c' := ApplyEvent(c, 0, e);
    if segment.Some? {
      assert c'.closed == c.closed + [segment.value];
      TotalSnoc(Covers(id, t), c.closed, segment.value);
    } else {
      assert c'.closed == c.closed;
    }
  }

  /** From its time on an event's goroutine shows the new record. */
  lemma StepFrom(c: Core, e: Event, g: Goroutine, t: int)
    requires Fits(c, g, e.goroutine) && e.time > 0 && g.lastSeenAt <= t
    ensures CoveredAt(c, e.goroutine, t, g)
  {
    NoneCover(c.closed, e.goroutine, t);
  }

  /** Events of other goroutines leave a goroutine's segments alone. */
  lemma StepOther(c: Core, e: Event, id: int, t: int)
    requires e.goroutine != 0 && id != e.goroutine
    ensures var c' := ApplyEvent(c, 0, e);
      && OpenOf(c'.active, id) == OpenOf(c.active, id)
      && Total(Covers(id, t), c'.closed) == Total(Covers(id, t), c.closed)
      && forall s: Segment :: s.goroutine == id ==> (s in c'.closed <==> s in c.closed)
  {
    var g := Lookup(c.goroutines, e.goroutine);
    var (open, segment) := Switch(e.goroutine, OpenOf(c.active, e.goroutine), g, Advance(g, e), e);
    var c' := ApplyEvent(c, 0, e);
    if segment.Some? {
      assert c'.closed == c.closed + [segment.value];
      assert Covers(id, t)(segment.value) == 0;
      TotalSnoc(Covers(id, t), c.closed, segment.value);
    } else {
      assert c'.closed == c.closed;
    }
  }

  lemma OthersFit(c: Core, e: Event, id: int, g: Goroutine)
    requires e.goroutine != 0 && id != e.goroutine && Fits(c, g, id)
    ensures Fits(ApplyEvent(c, 0, e), g, id)
  {
  }

  lemma {:induction false} RunFits(log: seq<Event>, id: int)
    requires TimelineLog(log) && id != 0
    ensures Fits(Run(log, 0), After(log, id), id)
  {
    if log != [] {
      var rest, e := log[..|log| - 1], log[|log| - 1];
      LogPrefix(log);
      assert e in log;
      RunFits(rest, id);
      if e.goroutine == id {
        RecordsFollowLog(rest, 0, id);
        IdAfter(rest, id);
        PriorTimes(log, id);
        StepFits(Run(rest, 0), e, After(rest, id));
      } else {
        OthersFit(Run(rest, 0), e, id, After(rest, id));
      }
    }
  }

  lemma PriorTimes(log: seq<Event>, id: int)
    requires TimelineLog(log) && log != [] && log[|log| - 1].goroutine == id
    ensures After(log[..|log| - 1], id).lastSeenAt <= log[|log| - 1].time
  {
    var rest, e := log[..|log| - 1], log[|log| - 1];
    LogPrefix(log);
    LastSeen(rest, id);
  }

  lemma {:induction false} RunCovered(log: seq<Event>, id: int, t: int)
    requires TimelineLog(log) && id != 0 && SeenBy(log, id, t)
    ensures CoveredAt(Run(log, 0), id, t, StateAt(log, id, t))
  {
    var rest, e := log[..|log| - 1], log[|log| - 1];
    LogPrefix(log);
    assert e in log;
    if e.goroutine == id && e.time <= t {
      RunFits(log, id);
      AdvanceTime(After(rest, id), e);
      StepFrom(Run(log, 0), e, After(log, id), t);
    } else {
      assert SeenBy(rest, id, t);
      RunCovered(rest, id, t);
      NextCovered(Run(rest, 0), rest, e, id, t);
    }
  }

  lemma NextCovered(c: Core, rest: seq<Event>, e: Event, id: int, t: int)
    requires TimelineLog(rest) && c == Run(rest, 0) && id != 0
    requires e.goroutine != 0 && e.time > 0 && IsTimelineKind(e.kind) && (e.goroutine == id ==> t < e.time)
    requires CoveredAt(c, id, t, StateAt(rest, id, t))
    ensures CoveredAt(ApplyEvent(c, 0, e), id, t, StateAt(rest, id, t))
  {
    if e.goroutine == id {
      RunFits(rest, id);
      RecordsFollowLog(rest, 0, id);
      StepBefore(c, e, After(rest, id), t, StateAt(rest, id, t));
    } else {
      StepOther(c, e, id, t);
      assert OpenOf(ApplyEvent(c, 0, e).active, id) == OpenOf(c.active, id);
    }
  }

  /** Segments start at events of their goroutine. */
  lemma {:induction false} StartsAtEvents(log: seq<Event>, id: int)
    requires TimelineLog(log) && id != 0
    ensures forall s :: s in Run(log, 0).closed && s.goroutine == id ==> LatestOf(log, id, s.start)
    ensures id in Run(log, 0).active ==> LatestOf(log, id, Run(log, 0).active[id].start)
  {
    if log != [] {
      var rest, e := log[..|log| - 1], log[|log| - 1];
      LogPrefix(log);
      StartsAtEvents(rest, id);
      assert forall n :: LatestOf(rest, id, n) ==> LatestOf(log, id, n);
      assert e in log;
      if e.goroutine == id {
        OwnStarts(Run(rest, 0), e);
        assert LatestOf(log, id, e.time);
      } else {
        StepOther(Run(rest, 0), e, id, 0);
        assert OpenOf(Run(log, 0).active, id) == OpenOf(Run(rest, 0).active, id);
      }
    }
  }

  lemma OwnStarts(c: Core, e: Event)
    requires e.goroutine != 0
    ensures var c' := ApplyEvent(c, 0, e);
      && (forall s :: s in c'.closed ==>
            s in c.closed || (e.goroutine in c.active && s.start == c.active[e.goroutine].start))
      && (e.goroutine in c'.active ==>
            || c'.active[e.goroutine].start == e.time
            || OpenOf(c'.active, e.goroutine) == OpenOf(c.active, e.goroutine))
  {
  }

  // ── The theorem ────────────────────────────────────────────────────────────

  /** Of the derived segments only the goroutine's own can cover it. */
  lemma DerivedTotal(c: Core, derived: seq<Segment>, id: int, t: int)
    requires multiset(derived) == multiset(DerivedSet(c))
    ensures Total(Covers(id, t), derived)
         == if Derived(c, id).Some? && Derived(c, id).value.start <= t < Derived(c, id).value.end then 1 else 0
    ensures forall s :: s in derived && s.goroutine == id ==> Derived(c, id) == Some(s)
  {
    forall s | s in derived && s.goroutine == id
      ensures Derived(c, id) == Some(s)
    {
      assert s in multiset(derived);
    }
    if Derived(c, id).Some? {
      var s := Derived(c, id).value;
      assert s in DerivedSet(c) && s in multiset(derived);
      var i :| 0 <= i < |derived| && derived[i] == s;
      var a, b := derived[..i], derived[i + 1..];
      assert derived == a + [s] + b;
      assert multiset(derived)[s] == 1 && multiset(derived) == multiset(a) + multiset{s} + multiset(b);
      assert s !in multiset(a) && s !in multiset(b);
      NoneCover(a, id, t);
      NoneCover(b, id, t);
      TotalConcat(Covers(id, t), a + [s], b);
      TotalSnoc(Covers(id, t), a, s);
    } else {
      NoneCover(derived, id, t);
    }
  }

  /** The instants at which a goroutine has been seen and its last event is still to come. */
  ghost predicate Ongoing(log: seq<Event>, id: int, t: int) {
    SeenBy(log, id, t) && t < After(log, id).lastSeenAt
  }

  /**
   At every instant between a goroutine's first and last event exactly one segment of the timeline
   covers it, showing the record its events up to then lead to, unless that record is of a state that
   is not tracked; at every other instant none does.
   */
  lemma TimelineMeansLog(log: seq<Event>, id: int, t: int, timeline: seq<Segment>)
    requires TimelineLog(log) && id != 0 && Lists(Run(log, 0), timeline)
    ensures Total(Covers(id, t), timeline)
         == if Ongoing(log, id, t) && ShouldTrack(StateAt(log, id, t).state) then 1 else 0
    ensures forall s :: s in timeline && Covers(id, t)(s) == 1 ==> Shows(s, StateAt(log, id, t))
  {
    var c := Run(log, 0);
    var derived := ListOf(DerivedSet(c));
    assert multiset(timeline) == multiset(c.closed + derived);
    TotalPermutes(Covers(id, t), timeline, c.closed + derived);
    TotalConcat(Covers(id, t), c.closed, derived);
    DerivedTotal(c, derived, id, t);
    RecordsFollowLog(log, 0, id);
    RunFits(log, id);
    if SeenBy(log, id, t) {
      RunCovered(log, id, t);
    } else {
      StartsAtEvents(log, id);
      assert forall n :: LatestOf(log, id, n) && n <= t ==> SeenBy(log, id, t);
      NoneCover(c.closed, id, t);
    }
    if After(log, id).lastSeenAt <= t {
      NoneCover(c.closed, id, t);
    }
    forall s | s in timeline && Covers(id, t)(s) == 1
      ensures Shows(s, StateAt(log, id, t))
    {
      assert s in multiset(timeline);
      assert s in multiset(c.closed) || s in multiset(derived);
      assert s in c.closed || s in derived;
    }
  }

  /** The wait time of a goroutine is how long its open segment lasts; one that does not wait has none. */
  lemma WaitTimeIsSegment(log: seq<Event>, id: int)
    requires TimelineLog(log) && id in Run(log, 0).goroutines
    ensures var c, g := Run(log, 0), Run(log, 0).goroutines[id];
      && (IsWaitState(g.state) ==> id in c.active && g.waitNS == g.lastSeenAt - c.active[id].start)
      && (!IsWaitState(g.state) ==> g.waitNS == 0 && g.reason == NoReason && g.resource == "")
  {
    NonzeroIds(log, id);
    RecordsFollowLog(log, 0, id);
    RunFits(log, id);
  }

  lemma {:induction false} NonzeroIds(log: seq<Event>, id: int)
    requires id in Run(log, 0).goroutines
    ensures id != 0
  {
    if log != [] {
      var rest, e := log[..|log| - 1], log[|log| - 1];
      if id in Run(rest, 0).goroutines {
        NonzeroIds(rest, id);
      } else {
        RecordsFollowLog(rest, 0, e.goroutine);
        IdAfter(rest, e.goroutine);
        StoredUnder(Run(rest, 0), 0, e);
      }
    }
  }

  // ── Retention ──────────────────────────────────────────────────────────────

  ghost predicate Suffix<T>(a: seq<T>, b: seq<T>) {
    |a| <= |b| && a == b[|b| - |a|..]
  }

  /** What a cap leaves of the closed segments. */
  ghost predicate Retained(kept: seq<Segment>, all: seq<Segment>, max: nat) {
    && Suffix(kept, all) && |kept| <= max + max / 10
    && (|all| <= max + max / 10 ==> kept == all)
    && (|kept| < |all| ==> |kept| >= max)
  }

  lemma TrimRetains(kept: seq<Segment>, all: seq<Segment>, more: seq<Segment>, max: nat)
    requires max > 0 && Retained(kept, all, max) && |more| <= 1
    ensures Retained(Trim(kept + more, max), all + more, max)
  {
  }

  lemma EventRetains(kept: Core, all: Core, e: Event, max: nat)
    requires max > 0 && kept.goroutines == all.goroutines && kept.active == all.active
    requires Retained(kept.closed, all.closed, max)
    ensures var k, a := ApplyEvent(kept, max, e), ApplyEvent(all, 0, e);
      k.goroutines == a.goroutines && k.active == a.active && Retained(k.closed, a.closed, max)
  {
    assert Effect(kept, e) == Effect(all, e);
    TrimRetains(kept.closed, all.closed, Effect(all, e).2, max);
  }

  /** With a cap the records and open segments are the same, and the closed ones are the most recent. */
  lemma {:induction false} RetentionKeepsRecent(log: seq<Event>, max: int)
    requires max > 0
    ensures var kept, all := Run(log, max), Run(log, 0);
      kept.goroutines == all.goroutines && kept.active == all.active && Retained(kept.closed, all.closed, max)
  {
    if log != [] {
      RetentionKeepsRecent(log[..|log| - 1], max);
      EventRetains(Run(log[..|log| - 1], max), Run(log[..|log| - 1], 0), log[|log| - 1], max);
    }
  }
}
