/** Stack snapshots, and why applying them live or all at the end makes no difference. */
module EngineLive {
  import opened EngineCore
  import opened Model
  import opened Options
  import opened StateMachine

  /** The record a snapshot leaves: created if unknown, seen no earlier than the snapshot. */
  function Attach(g: Goroutine, sn: Snapshot): Goroutine {
    var known :=
      if g.id != 0 then g
      else if sn.time == 0 then g.(id := sn.goroutine, isAlive := true)
      else g.(id := sn.goroutine, createdAt := sn.time, lastSeenAt := sn.time, bornNS := sn.time, isAlive := true);
    known.(lastSeenAt := if sn.time > known.lastSeenAt then sn.time else known.lastSeenAt, lastStack := Some(sn))
  }

  /** A goroutine first seen in a stack is born and alive then, in no state yet. */
  lemma AttachNew(sn: Snapshot)
    requires sn.goroutine != 0
    ensures var g := Attach(ZERO, sn);
      && g.id == sn.goroutine && g.isAlive && g.lastStack == Some(sn)
      && g.createdAt == g.bornNS == g.lastSeenAt == sn.time && g.diedNS == 0
      && g.state == Unset && g.reason == NoReason && g.resource == "" && g.waitNS == 0
      && g.parent == 0 && g.labels == map[]
  {
  }

  /** One that is known takes the stack, and is seen no earlier than it. */
  lemma AttachKnown(g: Goroutine, sn: Snapshot)
    requires g.id != 0
    ensures var n := Attach(g, sn);
      && n == g.(lastStack := Some(sn), lastSeenAt := n.lastSeenAt)
      && n.lastSeenAt >= g.lastSeenAt && n.lastSeenAt >= sn.time
      && (n.lastSeenAt == g.lastSeenAt || n.lastSeenAt == sn.time)
  {
  }

  function ApplySnapshot(c: Core, sn: Snapshot): Core {
    if sn.goroutine == 0 then c
    else
      var g := Attach(Lookup(c.goroutines, sn.goroutine), sn);
      c.(goroutines := c.goroutines[g.id := g])
  }

  function ApplySnapshots(c: Core, snapshots: seq<Snapshot>): Core {
    if snapshots == [] then c
    else ApplySnapshot(ApplySnapshots(c, snapshots[..|snapshots| - 1]), snapshots[|snapshots| - 1])
  }

  /** One step of a live trace: an event, and the stack taken with it if there is one. */
  datatype Step = Step(event: Event, stack: Option<Snapshot>)

  function RunLive(script: seq<Step>, max: int): Core {
    if script == [] then EMPTY
    else
      var s := script[|script| - 1];
      var c := ApplyEvent(RunLive(script[..|script| - 1], max), max, s.event);
      if s.stack.Some? then ApplySnapshot(c, s.stack.value) else c
  }

  function Events(script: seq<Step>): seq<Event> {
    if script == [] then [] else Events(script[..|script| - 1]) + [script[|script| - 1].event]
  }

  function Stacks(script: seq<Step>): seq<Snapshot> {
    if script == [] then []
    else
      var s := script[|script| - 1];
      Stacks(script[..|script| - 1]) + (if s.stack.Some? then [s.stack.value] else [])
  }

  /** Real ids and times, in order goroutine by goroutine; stacks taken with their events. */
  ghost predicate LiveTrace(script: seq<Step>) {
    && (forall s :: s in script ==> s.event.goroutine != 0 && s.event.time > 0)
    && (forall s :: s in script && s.stack.Some? ==>
          s.stack.value.goroutine == s.event.goroutine && s.stack.value.time == s.event.time)
    && (forall i, j :: 0 <= i < j < |script| && script[i].event.goroutine == script[j].event.goroutine ==>
          script[i].event.time <= script[j].event.time)
  }

  // ── Snapshots commute with later events ────────────────────────────────────

  ghost predicate WellKeyed(c: Core) {
    forall id :: id in c.goroutines ==> c.goroutines[id].id == id != 0
  }

  /** The goroutine is known and was seen no earlier than the snapshot. */
  ghost predicate Past(c: Core, sn: Snapshot) {
    sn.goroutine in c.goroutines && sn.time <= c.goroutines[sn.goroutine].lastSeenAt
  }

  lemma PastSnapshot(c: Core, sn: Snapshot)
    requires WellKeyed(c) && Past(c, sn)
    ensures ApplySnapshot(c, sn)
         == c.(goroutines := c.goroutines[sn.goroutine := c.goroutines[sn.goroutine].(lastStack := Some(sn))])
  {
  }

  lemma AdvanceIgnoresStack(g: Goroutine, e: Event, stack: Option<Snapshot>)
    ensures Advance(g.(lastStack := stack), e) == Advance(g, e).(lastStack := stack)
  {
    NextIgnoresStack(g, Normalize(e), stack);
  }

  lemma NextIgnoresStack(g: Goroutine, e: Event, stack: Option<Snapshot>)
    ensures Next(g.(lastStack := stack), e) == Next(g, e).(lastStack := stack)
  {
    assert ContinuingWait(g.(lastStack := stack), e) == ContinuingWait(g, e);
    assert ResolveNextState(g.(lastStack := stack), e) == ResolveNextState(g, e);
  }

  /** An event's record keeps or takes the event's goroutine and shows its time. */
  lemma RecordKeeps(g: Goroutine, e: Event)
    requires e.goroutine != 0 && e.time > 0 && (g.id == 0 || g.id == e.goroutine)
    ensures Advance(g, e).id == e.goroutine && Advance(g, e).lastSeenAt == e.time
  {
  }

  lemma EventKeeps(c: Core, max: int, e: Event)
    requires WellKeyed(c) && e.goroutine != 0 && e.time > 0
    ensures var c' := ApplyEvent(c, max, e);
      && WellKeyed(c') && c'.goroutines == c.goroutines[e.goroutine := Advance(Lookup(c.goroutines, e.goroutine), e)]
      && c'.goroutines[e.goroutine].lastSeenAt == e.time
  {
    RecordKeeps(Lookup(c.goroutines, e.goroutine), e);
    assert Effect(c, e).0 == Advance(Lookup(c.goroutines, e.goroutine), e);
  }

  lemma SwitchIgnoresStack(id: int, open: Option<Active>, g: Goroutine, next: Goroutine, e: Event,
                           stack: Option<Snapshot>)
    ensures Switch(id, open, g.(lastStack := stack), next.(lastStack := stack), e) == Switch(id, open, g, next, e)
  {
  }

  /** The record with a snapshot attached, among the others. */
  ghost function WithStack(goroutines: map<int, Goroutine>, sn: Snapshot): map<int, Goroutine>
    requires sn.goroutine in goroutines
  {
    goroutines[sn.goroutine := goroutines[sn.goroutine].(lastStack := Some(sn))]
  }

  lemma EffectIgnoresStack(c: Core, e: Event, sn: Snapshot)
    requires sn.goroutine in c.goroutines
    ensures var (next, open, closing) := Effect(c, e);
      Effect(c.(goroutines := WithStack(c.goroutines, sn)), e)
      == (if e.goroutine == sn.goroutine then next.(lastStack := Some(sn)) else next, open, closing)
  {
    var g := Lookup(c.goroutines, e.goroutine);
    AdvanceIgnoresStack(g, e, Some(sn));
    SwitchIgnoresStack(e.goroutine, OpenOf(c.active, e.goroutine), g, Advance(g, e), e, Some(sn));
  }

  lemma Commute(c: Core, max: int, e: Event, sn: Snapshot)
    requires WellKeyed(c) && Past(c, sn) && e.goroutine != 0 && e.time > 0
    requires e.goroutine in c.goroutines ==> c.goroutines[e.goroutine].lastSeenAt <= e.time
    ensures ApplyEvent(ApplySnapshot(c, sn), max, e) == ApplySnapshot(ApplyEvent(c, max, e), sn)
    ensures Past(ApplyEvent(c, max, e), sn)
  {
    PastSnapshot(c, sn);
    EventKeeps(c, max, e);
    var c', s := ApplyEvent(c, max, e), c.(goroutines := WithStack(c.goroutines, sn));
    PastSnapshot(c', sn);
    EffectIgnoresStack(c, e, sn);
    RecordKeeps(Lookup(c.goroutines, e.goroutine), e);
    StoresWithStack(c, s, max, e, sn);
  }

  lemma StoresWithStack(c: Core, s: Core, max: int, e: Event, sn: Snapshot)
    requires sn.goroutine in c.goroutines && e.goroutine != 0 && Effect(c, e).0.id == e.goroutine
    requires s == c.(goroutines := WithStack(c.goroutines, sn))
    requires var (next, open, closing) := Effect(c, e);
      Effect(s, e) == (if e.goroutine == sn.goroutine then next.(lastStack := Some(sn)) else next, open, closing)
    ensures var c' := ApplyEvent(c, max, e);
      ApplyEvent(s, max, e) == c'.(goroutines := WithStack(c'.goroutines, sn))
  {
    assert ApplyEvent(s, max, e).goroutines == WithStack(ApplyEvent(c, max, e).goroutines, sn);
  }

  lemma {:induction false} SnapshotsKeep(c: Core, snapshots: seq<Snapshot>)
    requires WellKeyed(c) && forall sn :: sn in snapshots ==> Past(c, sn)
    ensures var s := ApplySnapshots(c, snapshots);
      && WellKeyed(s) && s.goroutines.Keys == c.goroutines.Keys && s.closed == c.closed && s.active == c.active
      && forall id :: id in c.goroutines ==>
           s.goroutines[id] == c.goroutines[id].(lastStack := s.goroutines[id].lastStack)
  {
    if snapshots != [] {
      var rest, last := snapshots[..|snapshots| - 1], snapshots[|snapshots| - 1];
      assert forall sn :: sn in rest ==> sn in snapshots;
      assert last in snapshots;
      SnapshotsKeep(c, rest);
      PastSnapshot(ApplySnapshots(c, rest), last);
    }
  }

  lemma {:induction false} CommuteAll(c: Core, max: int, e: Event, snapshots: seq<Snapshot>)
    requires WellKeyed(c) && e.goroutine != 0 && e.time > 0
    requires forall sn :: sn in snapshots ==> Past(c, sn)
    requires e.goroutine in c.goroutines ==> c.goroutines[e.goroutine].lastSeenAt <= e.time
    ensures ApplyEvent(ApplySnapshots(c, snapshots), max, e) == ApplySnapshots(ApplyEvent(c, max, e), snapshots)
    ensures forall sn :: sn in snapshots ==> Past(ApplyEvent(c, max, e), sn)
  {
    if snapshots != [] {
      var rest, last := snapshots[..|snapshots| - 1], snapshots[|snapshots| - 1];
      assert forall sn :: sn in snapshots <==> sn in rest || sn == last;
      assert last in snapshots;
      CommuteAll(c, max, e, rest);
      SnapshotsKeep(c, rest);
      Commute(ApplySnapshots(c, rest), max, e, last);
      Commute(c, max, e, last);
    }
  }

  // ── Live equals batch ──────────────────────────────────────────────────────

  /** What the run of the events alone guarantees about the trace so far. */
  ghost predicate Caught(script: seq<Step>, c: Core) {
    && WellKeyed(c)
    && (forall sn :: sn in Stacks(script) ==> Past(c, sn))
    && (forall id :: id in c.goroutines ==>
          exists s :: s in script && s.event.goroutine == id && s.event.time == c.goroutines[id].lastSeenAt)
  }

  lemma TracePrefix(script: seq<Step>)
    requires LiveTrace(script) && script != []
    ensures LiveTrace(script[..|script| - 1])
    ensures forall s :: s in script <==> s in script[..|script| - 1] || s == script[|script| - 1]
    ensures forall s :: s in script && s.event.goroutine == script[|script| - 1].event.goroutine ==>
      s.event.time <= script[|script| - 1].event.time
  {
  }

  /** Events with their stacks as they come, or all events and then all stacks: the same engine. */
  lemma {:induction false} LiveEqualsBatch(script: seq<Step>, max: int)
    requires LiveTrace(script)
    ensures RunLive(script, max) == ApplySnapshots(Run(Events(script), max), Stacks(script))
    ensures Caught(script, Run(Events(script), max))
  {
    if script != [] {
      var rest, last := script[..|script| - 1], script[|script| - 1];
      TracePrefix(script);
      LiveEqualsBatch(rest, max);
      var c, e := Run(Events(rest), max), last.event;
      assert last in script;
      assert Events(script)[..|Events(script)| - 1] == Events(rest);
      CommuteAll(c, max, e, Stacks(rest));
      EventKeeps(c, max, e);
      var c' := ApplyEvent(c, max, e);
      assert Run(Events(script), max) == c';
      if last.stack.Some? {
        assert Stacks(script)[..|Stacks(rest)|] == Stacks(rest);
      } else {
        assert Stacks(script) == Stacks(rest);
      }
      forall id | id in c'.goroutines
        ensures exists s :: s in script && s.event.goroutine == id && s.event.time == c'.goroutines[id].lastSeenAt
      {
        if id != e.goroutine {
          var s :| s in rest && s.event.goroutine == id && s.event.time == c.goroutines[id].lastSeenAt;
          assert s in script;
        }
      }
    }
  }
}
