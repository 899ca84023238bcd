/** Exporting a state as a capture and loading it again. */
module EngineExport {
  import opened EngineCore
  import opened EngineLive
  import opened EngineTimeline
  import opened Model
  import opened StateMachine

  datatype Capture = Capture(events: seq<Event>, stacks: seq<Snapshot>, parents: map<int, int>,
                             labels: map<int, Labels>, resources: seq<ResourceEdge>,
                             processors: seq<ProcessorSegment>)

  // ── Loading ────────────────────────────────────────────────────────────────

  /** Parents for known goroutines that have none. */
  function MergeParents(goroutines: map<int, Goroutine>, parents: map<int, int>): map<int, Goroutine> {
    map id | id in goroutines ::
      if id in parents && goroutines[id].parent == 0 then goroutines[id].(parent := parents[id]) else goroutines[id]
  }

  /** Labels laid over those of known goroutines. */
  function MergeLabels(goroutines: map<int, Goroutine>, overrides: map<int, Labels>): map<int, Goroutine> {
    map id | id in goroutines ::
      if id in overrides then goroutines[id].(labels := goroutines[id].labels + overrides[id]) else goroutines[id]
  }

  /** Exactly the known goroutines without a parent take one, and nothing else changes. */
  lemma MergeParentsMeans(goroutines: map<int, Goroutine>, parents: map<int, int>, id: int)
    ensures var merged := MergeParents(goroutines, parents);
      && merged.Keys == goroutines.Keys
      && (id in goroutines ==>
            && merged[id] == goroutines[id].(parent := merged[id].parent)
            && (goroutines[id].parent != 0 || id !in parents ==> merged[id].parent == goroutines[id].parent)
            && (goroutines[id].parent == 0 && id in parents ==> merged[id].parent == parents[id]))
  {
  }

  /** Known goroutines keep their labels but for those overridden, and nothing else changes. */
  lemma MergeLabelsMeans(goroutines: map<int, Goroutine>, overrides: map<int, Labels>, id: int, key: string)
    ensures var merged := MergeLabels(goroutines, overrides);
      && merged.Keys == goroutines.Keys
      && (id in goroutines ==>
            && merged[id] == goroutines[id].(labels := merged[id].labels)
            && (if id in overrides && key in overrides[id]
                then key in merged[id].labels && merged[id].labels[key] == overrides[id][key]
                else (key in merged[id].labels <==> key in goroutines[id].labels)
                     && (key in merged[id].labels ==> merged[id].labels[key] == goroutines[id].labels[key])))
  {
  }

  function LoadCore(capture: Capture, max: int): Core {
    var c := ApplySnapshots(Run(capture.events, max), capture.stacks);
    c.(goroutines := MergeLabels(MergeParents(c.goroutines, capture.parents), capture.labels))
  }

  // ── Exporting ──────────────────────────────────────────────────────────────

  function CreateEvent(g: Goroutine): Event {
    Event(if g.createdAt == 0 then g.lastSeenAt else g.createdAt, Create, g.id, g.parent, Unset, NoReason, "", map[])
  }

  function StateEvent(g: Goroutine): Event {
    Event(g.lastSeenAt, StateChange, g.id, 0, g.state, g.reason, g.resource, map[])
  }

  /** Created when it was, or else when it was last seen, by its parent; then in its state, when last seen. */
  lemma ExportedEvents(g: Goroutine)
    ensures g.createdAt > 0 ==> CreateEvent(g).time == g.createdAt
    ensures g.createdAt == 0 ==> CreateEvent(g).time == g.lastSeenAt
    ensures var e := CreateEvent(g);
      && e.kind == Create && e.goroutine == g.id && e.parent == g.parent
      && e.state == Unset && e.reason == NoReason && e.resource == "" && e.labels == map[]
    ensures var e := StateEvent(g);
      && e.kind == StateChange && e.goroutine == g.id && e.time == g.lastSeenAt && e.parent == 0
      && e.state == g.state && e.reason == g.reason && e.resource == g.resource && e.labels == map[]
  {
  }

  /** A goroutine's two events, in this order, and no other of its own. */
  ghost predicate Exports(events: seq<Event>, g: Goroutine, i: int, j: int) {
    && 0 <= i < j < |events| && events[i] == CreateEvent(g) && events[j] == StateEvent(g)
    && forall k :: 0 <= k < |events| && k != i && k != j ==> events[k].goroutine != g.id
  }

  ghost predicate IsExport(c: Core, capture: Capture) {
    && (forall id :: id in c.goroutines && c.goroutines[id].state != Unset
                     && c.goroutines[id].createdAt <= c.goroutines[id].lastSeenAt ==>
          exists i, j :: Exports(capture.events, c.goroutines[id], i, j))
    && (forall e :: e in capture.events ==> e.goroutine in c.goroutines)
    && capture.parents == (map id | id in c.goroutines && c.goroutines[id].parent != 0 :: c.goroutines[id].parent)
    && capture.labels == (map id | id in c.goroutines && c.goroutines[id].labels != map[] :: c.goroutines[id].labels)
  }

  // ── The round trip ─────────────────────────────────────────────────────────

  /** A record that lifecycle events lead to. */
  ghost predicate Lived(g: Goroutine) {
    && g.state != Unset && 0 < g.createdAt <= g.lastSeenAt
    && (IsWaitState(g.state) ==> g.reason != NoReason)
    && (!IsWaitState(g.state) ==> g.reason == NoReason && g.resource == "")
  }

  /** What survives a round trip of a record. */
  predicate SameGoroutine(g: Goroutine, h: Goroutine) {
    && g.id == h.id && g.parent == h.parent && g.state == h.state && g.reason == h.reason && g.resource == h.resource
    && g.createdAt == h.createdAt && g.lastSeenAt == h.lastSeenAt && g.labels == h.labels
  }

  lemma {:induction false} AfterNone(events: seq<Event>, id: int)
    requires forall e :: e in events ==> e.goroutine != id
    ensures After(events, id) == ZERO
  {
    if events != [] {
      assert events[|events| - 1] in events;
      AfterNone(events[..|events| - 1], id);
    }
  }

  lemma {:induction false} AfterOne(events: seq<Event>, id: int, i: nat)
    requires i < |events| && events[i].goroutine == id
    requires forall k :: 0 <= k < |events| && k != i ==> events[k].goroutine != id
    ensures After(events, id) == Advance(ZERO, events[i])
  {
    if i == |events| - 1 {
      AfterNone(events[..i], id);
    } else {
      AfterOne(events[..|events| - 1], id, i);
    }
  }

  lemma {:induction false} AfterTwo(events: seq<Event>, id: int, i: nat, j: nat)
    requires i < j < |events| && events[i].goroutine == id && events[j].goroutine == id
    requires forall k :: 0 <= k < |events| && k != i && k != j ==> events[k].goroutine != id
    ensures After(events, id) == Advance(Advance(ZERO, events[i]), events[j])
  {
    if j == |events| - 1 {
      AfterOne(events[..j], id, i);
    } else {
      AfterTwo(events[..|events| - 1], id, i, j);
    }
  }

  /** h is g but for its labels, of which it has none. */
  predicate Rebuilt(h: Goroutine, g: Goroutine) {
    SameGoroutine(h.(labels := g.labels), g) && h.labels == map[]
  }

  /** Creation and current state rebuild the record, but for its labels. */
  lemma TwoEventsRebuild(g: Goroutine)
    requires Lived(g) && g.id != 0
    ensures Rebuilt(Advance(Advance(ZERO, CreateEvent(g)), StateEvent(g)), g)
  {
    var created := Advance(ZERO, CreateEvent(g));
    assert created.id == g.id && created.state == Runnable;
    assert created.createdAt == g.createdAt && created.parent == g.parent;
    var h := Advance(created, StateEvent(g));
    assert h.state == g.state && h.createdAt == g.createdAt && h.lastSeenAt == g.lastSeenAt;
  }

  lemma RebuiltAfter(events: seq<Event>, g: Goroutine, i: int, j: int)
    requires Lived(g) && g.id != 0 && Exports(events, g, i, j)
    ensures Rebuilt(After(events, g.id), g) && Mentions(events, g.id)
  {
    AfterTwo(events, g.id, i, j);
    TwoEventsRebuild(g);
    assert events[i] in events;
  }

  /** Loading what was exported gives back every goroutine, and no others. */
  lemma ExportThenLoad(c: Core, capture: Capture, max: int)
    requires WellKeyed(c) && forall id :: id in c.goroutines ==> Lived(c.goroutines[id])
    requires IsExport(c, capture) && forall sn :: sn in capture.stacks ==> Past(c, sn)
    ensures var loaded := LoadCore(capture, max);
      && loaded.goroutines.Keys == c.goroutines.Keys
      && forall id :: id in c.goroutines ==> SameGoroutine(loaded.goroutines[id], c.goroutines[id])
  {
    var r := Run(capture.events, max);
    LoadedRecords(c, capture, max);
    StacksKeepRecords(c, r, capture.stacks);
    MergedRecords(c, capture, ApplySnapshots(r, capture.stacks).goroutines);
  }

  lemma MergedRecords(c: Core, capture: Capture, goroutines: map<int, Goroutine>)
    requires IsExport(c, capture) && goroutines.Keys == c.goroutines.Keys
    requires forall id :: id in c.goroutines ==> Rebuilt(goroutines[id], c.goroutines[id])
    ensures var merged := MergeLabels(MergeParents(goroutines, capture.parents), capture.labels);
      && merged.Keys == c.goroutines.Keys
      && forall id :: id in c.goroutines ==> SameGoroutine(merged[id], c.goroutines[id])
  {
    forall id | id in c.goroutines
      ensures SameGoroutine(MergeLabels(MergeParents(goroutines, capture.parents), capture.labels)[id],
                            c.goroutines[id])
    {
      MergedRecord(c, capture, goroutines, id);
    }
  }

  lemma LoadedRecords(c: Core, capture: Capture, max: int)
    requires WellKeyed(c) && forall id :: id in c.goroutines ==> Lived(c.goroutines[id])
    requires IsExport(c, capture) && forall sn :: sn in capture.stacks ==> Past(c, sn)
    ensures var r := Run(capture.events, max);
      && r.goroutines.Keys == c.goroutines.Keys && WellKeyed(r)
      && (forall id :: id in c.goroutines ==> Rebuilt(r.goroutines[id], c.goroutines[id]))
      && (forall sn :: sn in capture.stacks ==> Past(r, sn))
  {
    var r := Run(capture.events, max);
    forall id
      ensures id in r.goroutines <==> id in c.goroutines
      ensures id in c.goroutines ==> Rebuilt(r.goroutines[id], c.goroutines[id])
    {
      LoadedRecord(c, capture, max, id);
    }
    assert r.goroutines.Keys == c.goroutines.Keys;
    forall sn | sn in capture.stacks
      ensures Past(r, sn)
    {
      assert Past(c, sn) && Rebuilt(r.goroutines[sn.goroutine], c.goroutines[sn.goroutine]);
    }
  }

  lemma StacksKeepRecords(c: Core, r: Core, stacks: seq<Snapshot>)
    requires WellKeyed(r) && forall sn :: sn in stacks ==> Past(r, sn)
    requires r.goroutines.Keys == c.goroutines.Keys
    requires forall id :: id in c.goroutines ==> Rebuilt(r.goroutines[id], c.goroutines[id])
    ensures var s := ApplySnapshots(r, stacks);
      && s.goroutines.Keys == c.goroutines.Keys
      && forall id :: id in c.goroutines ==> Rebuilt(s.goroutines[id], c.goroutines[id])
  {
    SnapshotsKeep(r, stacks);
    var s := ApplySnapshots(r, stacks);
    forall id | id in c.goroutines
      ensures Rebuilt(s.goroutines[id], c.goroutines[id])
    {
      assert s.goroutines[id] == r.goroutines[id].(lastStack := s.goroutines[id].lastStack);
    }
  }

  lemma MergedRecord(c: Core, capture: Capture, goroutines: map<int, Goroutine>, id: int)
    requires IsExport(c, capture) && id in c.goroutines && id in goroutines
    requires Rebuilt(goroutines[id], c.goroutines[id])
    ensures SameGoroutine(MergeLabels(MergeParents(goroutines, capture.parents), capture.labels)[id], c.goroutines[id])
  {
    assert map[] + c.goroutines[id].labels == c.goroutines[id].labels;
  }

  lemma LoadedRecord(c: Core, capture: Capture, max: int, id: int)
    requires WellKeyed(c) && forall id :: id in c.goroutines ==> Lived(c.goroutines[id])
    requires IsExport(c, capture)
    ensures id in Run(capture.events, max).goroutines <==> id in c.goroutines
    ensures id in c.goroutines ==> Rebuilt(Run(capture.events, max).goroutines[id], c.goroutines[id])
  {
    if id in c.goroutines {
      var i, j :| Exports(capture.events, c.goroutines[id], i, j);
      RebuiltAfter(capture.events, c.goroutines[id], i, j);
      RecordsFollowLog(capture.events, max, id);
    } else if id in Run(capture.events, max).goroutines {
      if id == 0 {
        NoZero(capture.events, max);
      } else {
        RecordsFollowLog(capture.events, max, id);
      }
    }
  }

  lemma {:induction false} NoZero(log: seq<Event>, max: int)
    ensures 0 !in Run(log, max).goroutines
  {
    if log != [] {
      var rest, e := log[..|log| - 1], log[|log| - 1];
      NoZero(rest, max);
      if e.goroutine != 0 {
        RecordsFollowLog(rest, max, e.goroutine);
        IdAfter(rest, e.goroutine);
        StoredUnder(Run(rest, max), max, e);
      }
    }
  }

  /** Runs of lifecycle events lead to records that survive the round trip. */
  lemma {:induction false} RunsLive(log: seq<Event>, id: int)
    requires TimelineLog(log) && id != 0 && Mentions(log, id)
    ensures Lived(After(log, id))
  {
    var rest, e := log[..|log| - 1], log[|log| - 1];
    LogPrefix(log);
    MentionsSnoc(log, id);
    if Mentions(rest, id) {
      RunsLive(rest, id);
    } else {
      NotMentioned(rest, id);
    }
    if e.goroutine == id {
      PriorTimes(log, id);
      assert e in log;
      OneEventLives(After(rest, id), e);
    }
  }

  lemma NotMentioned(log: seq<Event>, id: int)
    requires !Mentions(log, id)
    ensures After(log, id) == ZERO
  {
  }

  lemma OneEventLives(g: Goroutine, e: Event)
    requires e.time > 0 && IsTimelineKind(e.kind) && (g == ZERO || Lived(g)) && g.lastSeenAt <= e.time
    ensures Lived(Advance(g, e))
  {
  }

  /** After any run of lifecycle events an export loads back into the same goroutines. */
  lemma RunExportsBack(log: seq<Event>, capture: Capture, max: int)
    requires TimelineLog(log) && IsExport(Run(log, max), capture)
    requires forall sn :: sn in capture.stacks ==> Past(Run(log, max), sn)
    ensures var c, loaded := Run(log, max), LoadCore(capture, max);
      && loaded.goroutines.Keys == c.goroutines.Keys
      && forall id :: id in c.goroutines ==> SameGoroutine(loaded.goroutines[id], c.goroutines[id])
  {
    var c := Run(log, max);
    forall id | id in c.goroutines
      ensures c.goroutines[id].id == id != 0 && Lived(c.goroutines[id])
    {
      NoZero(log, max);
      RecordsFollowLog(log, max, id);
      IdAfter(log, id);
      RunsLive(log, id);
    }
    ExportThenLoad(c, capture, max);
  }
}
