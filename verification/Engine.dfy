/** The engine itself: the mutable state behind its lock, one method per locked operation. */
module Engine {
  import opened Collections
  import opened EngineCaches
  import opened EngineCore
  import opened EngineDelta
  import opened EngineExport
  import opened EngineListing
  import opened EngineLive
  import opened Heatmap
  import opened Model
  import opened Options
  import opened RequestCaches
  import opened RequestGroups
  import opened Requests
  import opened StackHistory
  import opened StateMachine

  /** The state a reset leaves, at a version. */
  function Fresh(version: nat): Tracked {
    Tracked(EMPTY, Revisions(version, map[], map[]))
  }

  /** Snapshots of no goroutine change nothing. */
  function Real(): Snapshot -> int {
    (sn: Snapshot) => if sn.goroutine != 0 then 1 else 0
  }

  /** A history with one more snapshot, under a cap. */
  function Appended(h: History, sn: Snapshot, cap: int): History {
    h[sn.goroutine := KeepLast(HistoryAt(h, sn.goroutine) + [sn], cap)]
  }

  /** The snapshot ends its own goroutine's history, after what the cap leaves of it; the others stay. */
  lemma AppendedMeans(h: History, sn: Snapshot, cap: int, id: int)
    ensures var before, after := HistoryAt(h, id), HistoryAt(Appended(h, sn, cap), id);
      if id != sn.goroutine then after == before
      else
        && after != [] && after[|after| - 1] == sn
        && |after| == (if 0 < cap <= |before| then cap else |before| + 1)
        && after[..|after| - 1] == before[|before| + 1 - |after|..]
  {
  }

  class Engine {
    var goroutines: map<int, Goroutine>
    var closedSegments: seq<Segment>
    var activeSegments: map<int, Active>
    var edges: seq<ResourceEdge>
    var processorSegments: seq<ProcessorSegment>
    var dataVersion: nat
    var stacksByGID: map<int, seq<Snapshot>>
    var stackCount: int
    var goroutineBornAt: map<int, nat>
    var goroutineChangedAt: map<int, nat>
    var contentionDirty: bool
    var contentionCache: seq<ResourceContention>
    var groupsDirty: bool
    var groupsCache: seq<RequestGroup>
    const maxClosedSegments: int
    const maxStacksPerGoroutine: int

    // ── What the fields amount to ────────────────────────────────────────────

    ghost function Now(): Core
      reads this
    {
      Core(goroutines, closedSegments, activeSegments)
    }

    ghost function TrackedNow(): Tracked
      reads this
    {
      Tracked(Now(), Revisions(dataVersion, goroutineBornAt, goroutineChangedAt))
    }

    ghost predicate Valid()
      reads this
    {
      WellKeyed(Now()) && Opened(Now()) && stackCount == Count(stacksByGID) && Filed(stacksByGID)
    }

    /** A clean contention cache measures the timeline. */
    ghost predicate ContentionCoherent()
      reads this
    {
      contentionDirty || Coherent(Now(), contentionCache)
    }

    /** A clean groups cache is a possible grouping of the goroutines. */
    ghost predicate GroupsCoherent()
      reads this
    {
      groupsDirty || PossibleGroups(goroutines, groupsCache)
    }

    // ── Reset and load ───────────────────────────────────────────────────────

    constructor (maxClosed: int, maxStacks: int)
      ensures Valid() && TrackedNow() == Fresh(0) && ContentionCoherent() && GroupsCoherent()
      ensures maxClosedSegments == maxClosed && maxStacksPerGoroutine == maxStacks
      ensures edges == [] && processorSegments == [] && stacksByGID == map[]
    {
      maxClosedSegments, maxStacksPerGoroutine := maxClosed, maxStacks;
      goroutines, closedSegments, activeSegments := map[], [], map[];
      edges, processorSegments, dataVersion := [], [], 0;
      stacksByGID, stackCount := map[], 0;
      goroutineBornAt, goroutineChangedAt := map[], map[];
      contentionDirty, contentionCache, groupsDirty, groupsCache := true, [], true, [];
    }

    method DropRecords()
      modifies this`goroutines, this`closedSegments, this`activeSegments, this`goroutineBornAt, this`goroutineChangedAt
      ensures Now() == EMPTY && goroutineBornAt == goroutineChangedAt == map[]
    {
      goroutines, closedSegments, activeSegments := map[], [], map[];
      goroutineBornAt, goroutineChangedAt := map[], map[];
    }

    /** Everything is dropped but the version, which goes up, and both caches are to be recomputed. */
    method ResetLocked()
      modifies this
      ensures Now() == EMPTY && goroutineBornAt == goroutineChangedAt == map[] && dataVersion == old(dataVersion) + 1
      ensures edges == [] && processorSegments == [] && stacksByGID == map[] && stackCount == 0
      ensures contentionDirty && groupsDirty && contentionCache == [] && groupsCache == []
    {
      DropRecords();
      edges, processorSegments := [], [];
      stacksByGID, stackCount := map[], 0;
      dataVersion := dataVersion + 1;
      contentionDirty, groupsDirty, contentionCache, groupsCache := true, true, [], [];
    }

    method Reset()
      modifies this
      ensures Valid() && TrackedNow() == Fresh(old(dataVersion) + 1) && ContentionCoherent() && GroupsCoherent()
      ensures contentionDirty && groupsDirty
      ensures edges == [] && processorSegments == [] && stacksByGID == map[] && stackCount == 0
    {
      ResetLocked();
      NothingYet();
    }

    // ── Events ───────────────────────────────────────────────────────────────

    method UpdateSegments(id: int, current: Goroutine, next: Goroutine, event: Event)
      modifies this`closedSegments, this`activeSegments
      ensures var (open, closing) := Switch(id, OpenOf(old(activeSegments), id), current, next, event);
        && closedSegments == old(closedSegments) + (if closing.Some? then [closing.value] else [])
        && activeSegments == if open.Some? then old(activeSegments)[id := open.value] else old(activeSegments) - {id}
    {
      if !IsTimelineKind(event.kind) || event.time == 0 {
        KeepOpen(activeSegments, id);
        return;
      }
      var hasActive := id in activeSegments;
      if hasActive && Matches(activeSegments[id], current) {
        if current.state != next.state || current.reason != next.reason || current.resource != next.resource {
          var segment := BuildSegment(id, activeSegments[id], event.time);
          if segment.Some? {
            closedSegments := closedSegments + [segment.value];
          }
          activeSegments := activeSegments - {id};
          hasActive := false;
        }
      }
      if hasActive {
        KeepOpen(activeSegments, id);
        return;
      }
      if !ShouldTrack(next.state) {
        return;
      }
      activeSegments := activeSegments[id := Active(event.time, next.state, next.reason, next.resource)];
    }

    method TrimClosedSegments()
      modifies this`closedSegments
      ensures closedSegments == Trim(old(closedSegments), maxClosedSegments)
    {
      var max := maxClosedSegments;
      if max <= 0 {
        return;
      }
      if |closedSegments| <= max + max / 10 {
        return;
      }
      var drop := |closedSegments| - max;
      closedSegments := closedSegments[drop..];
    }

    /** The record goes in, stamped with the version it makes; both caches are to be recomputed. */
    method Store(next: Goroutine)
      modifies this`goroutines, this`dataVersion, this`goroutineBornAt, this`goroutineChangedAt, this`contentionDirty,
               this`groupsDirty
      ensures goroutines == old(goroutines)[next.id := next] && contentionDirty && groupsDirty
      ensures Revisions(dataVersion, goroutineBornAt, goroutineChangedAt)
           == Stamp(old(Revisions(dataVersion, goroutineBornAt, goroutineChangedAt)), next.id)
    {
      dataVersion := dataVersion + 1;
      contentionDirty, groupsDirty := true, true;
      if next.id !in goroutineBornAt {
        goroutineBornAt := goroutineBornAt[next.id := dataVersion];
      }
      goroutineChangedAt := goroutineChangedAt[next.id := dataVersion];
      goroutines := goroutines[next.id := next];
    }

    /** One event: the specified step of records, segments and stamps; both caches to be recomputed. */
    method ApplyEventLocked(event: Event)
      modifies this`goroutines, this`closedSegments, this`activeSegments, this`dataVersion, this`goroutineBornAt,
               this`goroutineChangedAt, this`contentionDirty, this`groupsDirty
      ensures TrackedNow() == ApplyTracked(old(TrackedNow()), maxClosedSegments, event)
      ensures contentionDirty == (old(contentionDirty) || event.goroutine != 0)
      ensures groupsDirty == (old(groupsDirty) || event.goroutine != 0)
    {
      if event.goroutine == 0 {
        return;
      }
      ghost var before := TrackedNow();
      var e := Normalize(event);
      var current := if e.goroutine in goroutines then goroutines[e.goroutine] else ZERO;
      var next := Process(current, event);
      UpdateSegments(e.goroutine, current, next, e);
      TrimClosedSegments();
      Store(next);
      Stored(before, maxClosedSegments, event, closedSegments, activeSegments);
    }

    method ApplyEvent(event: Event)
      requires Valid()
      modifies this`goroutines, this`closedSegments, this`activeSegments, this`dataVersion, this`goroutineBornAt,
               this`goroutineChangedAt, this`contentionDirty, this`groupsDirty
      ensures TrackedNow() == ApplyTracked(old(TrackedNow()), maxClosedSegments, event) && Valid()
      ensures contentionDirty == (old(contentionDirty) || event.goroutine != 0)
      ensures groupsDirty == (old(groupsDirty) || event.goroutine != 0)
      ensures old(ContentionCoherent()) ==> ContentionCoherent()
      ensures old(GroupsCoherent()) ==> GroupsCoherent()
    {
      EventOpened(Now(), maxClosedSegments, event);
      ApplyEventLocked(event);
    }

    /** The record the event leads to. */
    method Process(current: Goroutine, event: Event) returns (next: Goroutine)
      ensures next == Advance(current, event)
    {
      var e := Normalize(event);
      next := Apply(current, e);
      if e.kind == Create && e.parent != 0 && next.parent == 0 {
        next := next.(parent := e.parent);
      }
      if next.bornNS == 0 && next.createdAt != 0 {
        next := next.(bornNS := next.createdAt);
      }
      if next.state == Done && next.diedNS == 0 && e.time != 0 {
        next := next.(diedNS := e.time);
      }
      next := next.(isAlive := next.state != Done);
    }

    method ApplyEvents(events: seq<Event>)
      requires Valid()
      modifies this`goroutines, this`closedSegments, this`activeSegments, this`dataVersion, this`goroutineBornAt,
               this`goroutineChangedAt, this`contentionDirty, this`groupsDirty
      ensures TrackedNow() == RunTracked(old(TrackedNow()), events, maxClosedSegments) && Valid()
      ensures old(contentionDirty) ==> contentionDirty
      ensures old(groupsDirty) ==> groupsDirty
      ensures old(ContentionCoherent()) ==> ContentionCoherent()
      ensures old(GroupsCoherent()) ==> GroupsCoherent()
    {
      for i := 0 to |events|
        invariant TrackedNow() == RunTracked(old(TrackedNow()), events[..i], maxClosedSegments) && Valid()
        invariant old(contentionDirty) ==> contentionDirty
        invariant old(groupsDirty) ==> groupsDirty
        invariant old(ContentionCoherent()) ==> ContentionCoherent()
        invariant old(GroupsCoherent()) ==> GroupsCoherent()
      {
        assert events[..i + 1][..i] == events[..i];
        ApplyEvent(events[i]);
      }
      assert events[..|events|] == events;
    }

    // ── Stack snapshots ──────────────────────────────────────────────────────

    /** The record a snapshot leaves. */
    method AttachStack(current: Goroutine, snapshot: Snapshot) returns (goroutine: Goroutine)
      ensures goroutine == Attach(current, snapshot)
    {
      goroutine := current;
      if goroutine.id == 0 {
        goroutine := goroutine.(id := snapshot.goroutine);
        if snapshot.time != 0 {
          goroutine := goroutine.(createdAt := snapshot.time, lastSeenAt := snapshot.time, bornNS := snapshot.time);
        }
        goroutine := goroutine.(isAlive := true);
      }
      if snapshot.time > goroutine.lastSeenAt {
        goroutine := goroutine.(lastSeenAt := snapshot.time);
      }
      goroutine := goroutine.(lastStack := Some(snapshot));
    }

    /** The snapshot goes to the end of its goroutine's history; beyond the cap the oldest ones go. */
    method AppendToHistory(snapshot: Snapshot)
      requires stackCount == Count(stacksByGID) && Filed(stacksByGID)
      modifies this`stacksByGID, this`stackCount
      ensures stacksByGID == Appended(old(stacksByGID), snapshot, maxStacksPerGoroutine)
      ensures stackCount == Count(stacksByGID) && Filed(stacksByGID)
    {
      var id := snapshot.goroutine;
      var snaps := (if id in stacksByGID then stacksByGID[id] else []) + [snapshot];
      CountUpdate(stacksByGID, id, snaps);
      stacksByGID := stacksByGID[id := snaps];
      stackCount := stackCount + 1;
      if maxStacksPerGoroutine > 0 && |snaps| > maxStacksPerGoroutine {
        var toRemove := |snaps| - maxStacksPerGoroutine;
        CountUpdate(stacksByGID, id, snaps[toRemove..]);
        stacksByGID := stacksByGID[id := snaps[toRemove..]];
        stackCount := stackCount - toRemove;
      }
    }

    /** A snapshot changes a record and marks the groups, but neither the contention cache nor any stamp. */
    method ApplyStackSnapshotLocked(snapshot: Snapshot, appendToHistory: bool)
      requires stackCount == Count(stacksByGID) && Filed(stacksByGID)
      modifies this`goroutines, this`stacksByGID, this`stackCount, this`dataVersion, this`groupsDirty
      ensures Now() == ApplySnapshot(old(Now()), snapshot)
      ensures stacksByGID == if appendToHistory && snapshot.goroutine != 0
        then Appended(old(stacksByGID), snapshot, maxStacksPerGoroutine) else old(stacksByGID)
      ensures stackCount == Count(stacksByGID) && Filed(stacksByGID)
      ensures dataVersion == old(dataVersion) + (if snapshot.goroutine != 0 then 1 else 0)
      ensures groupsDirty == (old(groupsDirty) || snapshot.goroutine != 0)
    {
      if snapshot.goroutine == 0 {
        return;
      }
      var current := if snapshot.goroutine in goroutines then goroutines[snapshot.goroutine] else ZERO;
      var goroutine := AttachStack(current, snapshot);
      goroutines := goroutines[goroutine.id := goroutine];
      if appendToHistory {
        AppendToHistory(snapshot);
      }
      dataVersion := dataVersion + 1;
      groupsDirty := true;
    }

    /** A clean contention cache survives a snapshot exactly when the snapshot overtakes no open wait. */
    method ApplyStackSnapshot(snapshot: Snapshot)
      requires Valid()
      modifies this`goroutines, this`stacksByGID, this`stackCount, this`dataVersion, this`groupsDirty
      ensures Now() == ApplySnapshot(old(Now()), snapshot) && Valid()
      ensures TrackedNow() == ApplyChange(old(TrackedNow()), maxClosedSegments, Stacked(snapshot))
      ensures stacksByGID == if snapshot.goroutine != 0
        then Appended(old(stacksByGID), snapshot, maxStacksPerGoroutine) else old(stacksByGID)
      ensures old(ContentionCoherent()) ==>
        (ContentionCoherent() <==> contentionDirty || !Overtakes(old(Now()), snapshot))
      ensures old(GroupsCoherent()) ==> GroupsCoherent()
    {
      SnapshotOpened(Now(), snapshot);
      if !contentionDirty && Coherent(Now(), contentionCache) {
        SnapshotStaleIffOvertakes(Now(), snapshot, contentionCache);
      }
      ApplyStackSnapshotLocked(snapshot, true);
    }

    // ── Parents, labels, edges and processor segments ────────────────────────

    method MergeParentsLocked(ids: map<int, int>)
      modifies this`goroutines
      ensures goroutines == MergeParents(old(goroutines), ids)
    {
      var left := ids.Keys;
      while left != {}
        invariant left <= ids.Keys && goroutines == MergeParents(old(goroutines), ids - left)
        decreases left
      {
        var id := Pick(left);
        MergeParent(old(goroutines), ids, left, id);
        left := left - {id};
        if id in goroutines && goroutines[id].parent == 0 {
          goroutines := goroutines[id := goroutines[id].(parent := ids[id])];
        }
      }
      assert ids - {} == ids;
    }

    method MergeLabelsLocked(overrides: map<int, Labels>)
      modifies this`goroutines
      ensures goroutines == MergeLabels(old(goroutines), overrides)
    {
      var left := overrides.Keys;
      while left != {}
        invariant left <= overrides.Keys && goroutines == MergeLabels(old(goroutines), overrides - left)
        decreases left
      {
        var id := Pick(left);
        MergeLabel(old(goroutines), overrides, left, id);
        left := left - {id};
        if id in goroutines && overrides[id] != map[] {
          goroutines := goroutines[id := goroutines[id].(labels := goroutines[id].labels + overrides[id])];
        }
      }
      assert overrides - {} == overrides;
    }

    /** Clean request groups survive new parents exactly when nobody is recruited and no two groups are tangled. */
    method SetParentIDs(ids: map<int, int>)
      requires Valid()
      modifies this`goroutines, this`dataVersion
      ensures goroutines == MergeParents(old(goroutines), ids) && Valid()
      ensures TrackedNow() == ApplyChange(old(TrackedNow()), maxClosedSegments, Parented(ids))
      ensures old(ContentionCoherent()) ==> ContentionCoherent()
      ensures old(GroupsCoherent()) ==>
        (GroupsCoherent() <==> groupsDirty || Harmless(old(goroutines), ids, groupsCache))
    {
      GroupsAfterParents(goroutines, ids, groupsDirty, groupsCache);
      SameTimeline(Now(), MergeParents(goroutines, ids));
      if ids == map[] {
        MergeNothing(goroutines);
        return;
      }
      MergeParentsLocked(ids);
      dataVersion := dataVersion + 1;
      assert Now() == old(Now()).(goroutines := MergeParents(old(goroutines), ids));
    }

    method SetLabelOverrides(overrides: map<int, Labels>)
      requires Valid()
      modifies this`goroutines, this`dataVersion, this`groupsDirty
      ensures goroutines == MergeLabels(old(goroutines), overrides) && Valid()
      ensures TrackedNow() == ApplyChange(old(TrackedNow()), maxClosedSegments, Relabelled(overrides))
      ensures groupsDirty == (old(groupsDirty) || overrides != map[])
      ensures old(ContentionCoherent()) ==> ContentionCoherent()
      ensures old(GroupsCoherent()) ==> GroupsCoherent()
    {
      SameTimeline(Now(), MergeLabels(goroutines, overrides));
      if overrides == map[] {
        MergeNothing(goroutines);
        return;
      }
      MergeLabelsLocked(overrides);
      dataVersion := dataVersion + 1;
      groupsDirty := true;
    }

    method SetResourceGraph(newEdges: seq<ResourceEdge>)
      requires Valid()
      modifies this`edges, this`dataVersion, this`contentionDirty
      ensures edges == newEdges && dataVersion == old(dataVersion) + 1 && contentionDirty && Valid()
      ensures old(GroupsCoherent()) ==> GroupsCoherent()
    {
      edges := newEdges;
      dataVersion := dataVersion + 1;
      contentionDirty := true;
    }

    method AddProcessorSegments(segs: seq<ProcessorSegment>)
      requires Valid()
      modifies this`processorSegments, this`dataVersion
      ensures processorSegments == old(processorSegments) + segs && Valid()
      ensures dataVersion == old(dataVersion) + (if segs == [] then 0 else 1)
      ensures old(ContentionCoherent()) ==> ContentionCoherent()
      ensures old(GroupsCoherent()) ==> GroupsCoherent()
    {
      if |segs| == 0 {
        return;
      }
      processorSegments := processorSegments + segs;
      dataVersion := dataVersion + 1;
    }

    // ── Loading a capture ────────────────────────────────────────────────────

    method AttachStacks(stacks: seq<Snapshot>)
      requires stackCount == Count(stacksByGID) && Filed(stacksByGID)
      modifies this`goroutines, this`stacksByGID, this`stackCount, this`dataVersion, this`groupsDirty
      ensures Now() == ApplySnapshots(old(Now()), stacks)
      ensures stacksByGID == old(stacksByGID) && stackCount == old(stackCount)
      ensures old(groupsDirty) ==> groupsDirty
      ensures dataVersion == old(dataVersion) + Total(Real(), stacks)
    {
      for i := 0 to |stacks|
        invariant Now() == ApplySnapshots(old(Now()), stacks[..i])
        invariant stacksByGID == old(stacksByGID) && stackCount == old(stackCount)
        invariant old(groupsDirty) ==> groupsDirty
        invariant dataVersion == old(dataVersion) + Total(Real(), stacks[..i])
      {
        assert stacks[..i + 1][..i] == stacks[..i];
        ApplyStackSnapshotLocked(stacks[i], false);
      }
      assert stacks[..|stacks|] == stacks;
    }

    method FileStacks(stacks: seq<Snapshot>)
      requires stacksByGID == map[]
      modifies this`stacksByGID, this`stackCount
      ensures Holds(stacksByGID, stacks) && Filed(stacksByGID) && stackCount == |stacks| == Count(stacksByGID)
    {
      NothingYet();
      for i := 0 to |stacks|
        invariant Holds(stacksByGID, stacks[..i]) && Filed(stacksByGID) && Count(stacksByGID) == i
      {
        var s := stacks[i];
        assert stacks[..i + 1][..i] == stacks[..i];
        CountUpdate(stacksByGID, s.goroutine, HistoryAt(stacksByGID, s.goroutine) + [s]);
        var history := if s.goroutine in stacksByGID then stacksByGID[s.goroutine] else [];
        stacksByGID := stacksByGID[s.goroutine := history + [s]];
      }
      assert stacks[..|stacks|] == stacks;
      stackCount := |stacks|;
    }

    /** Events first, then all stacks, whose histories are kept whole whatever the cap. */
    method LoadRecords(events: seq<Event>, stacks: seq<Snapshot>)
      requires Valid() && Now() == EMPTY && goroutineBornAt == goroutineChangedAt == map[] && stacksByGID == map[]
      requires contentionDirty && groupsDirty
      modifies this
      ensures Now() == ApplySnapshots(Run(events, maxClosedSegments), stacks)
      ensures Valid() && contentionDirty && groupsDirty
      ensures Holds(stacksByGID, stacks) && stackCount == |stacks|
      ensures var run := RunTracked(Fresh(old(dataVersion)), events, maxClosedSegments);
        && goroutineBornAt == run.rev.bornAt && goroutineChangedAt == run.rev.changedAt
        && dataVersion == run.rev.version + Total(Real(), stacks)
    {
      TrackedRuns(dataVersion, events, maxClosedSegments);
      ApplyEvents(events);
      SnapshotsOpened(Now(), stacks);
      AttachStacks(stacks);
      FileStacks(stacks);
    }

    method MergeRecords(parents: map<int, int>, overrides: map<int, Labels>)
      requires Valid()
      modifies this`goroutines
      ensures goroutines == MergeLabels(MergeParents(old(goroutines), parents), overrides) && Valid()
    {
      SameTimeline(Now(), MergeParents(goroutines, parents));
      MergeParentsLocked(parents);
      SameTimeline(Now(), MergeLabels(goroutines, overrides));
      MergeLabelsLocked(overrides);
    }

    /** Whatever was there is replaced by the capture. */
    method LoadCapture(capture: Capture)
      modifies this
      ensures Now() == LoadCore(capture, maxClosedSegments) && Valid() && contentionDirty && groupsDirty
      ensures edges == capture.resources && processorSegments == capture.processors
      ensures Holds(stacksByGID, capture.stacks) && stackCount == |capture.stacks|
      ensures var run := RunTracked(Fresh(old(dataVersion) + 1), capture.events, maxClosedSegments);
        && goroutineBornAt == run.rev.bornAt && goroutineChangedAt == run.rev.changedAt
        && dataVersion == run.rev.version + Total(Real(), capture.stacks)
    {
      Reset();
      LoadRecords(capture.events, capture.stacks);
      edges := capture.resources;
      processorSegments := capture.processors;
      MergeRecords(capture.parents, capture.labels);
    }

    // ── Views ────────────────────────────────────────────────────────────────

    /** Closed segments, then the open ones cut off where their goroutine was last seen. */
    method Segments() returns (out: seq<Segment>)
      ensures Lists(Now(), out)
    {
      out := closedSegments;
      DerivedAll(Now());
      var left := activeSegments.Keys;
      while left != {}
        invariant left <= activeSegments.Keys
        invariant multiset(out) == multiset(closedSegments) + multiset(DerivedOf(Now(), activeSegments.Keys - left))
        decreases left
      {
        var id := Pick(left);
        DerivedMore(Now(), activeSegments.Keys - left, id);
        assert activeSegments.Keys - (left - {id}) == (activeSegments.Keys - left) + {id};
        left := left - {id};
        if id in goroutines {
          var derived := BuildSegment(id, activeSegments[id], goroutines[id].lastSeenAt);
          if derived.Some? {
            out := out + [derived.value];
          }
        }
      }
      assert activeSegments.Keys - {} == activeSegments.Keys;
    }

    method Timeline() returns (out: seq<Segment>)
      ensures Lists(Now(), out) && InTimelineOrder(out)
    {
      var segments := Segments();
      out := SortSlice(segments, SegmentBefore);
      SortedTimeline(out);
    }

    /** The cached metrics while they are clean, and fresh ones otherwise. */
    method GetResourceContention() returns (out: seq<ResourceContention>)
      modifies this`contentionDirty, this`contentionCache
      ensures !contentionDirty && out == contentionCache
      ensures old(contentionDirty) ==> Coherent(Now(), out)
      ensures !old(contentionDirty) ==> out == old(contentionCache)
      ensures old(ContentionCoherent()) ==> Coherent(Now(), out) && ContentionCoherent()
      ensures old(GroupsCoherent()) ==> GroupsCoherent()
    {
      if !contentionDirty {
        return contentionCache;
      }
      var segments := Segments();
      contentionCache := ComputeResourceContention(segments);
      contentionDirty := false;
      out := contentionCache;
    }

    /** The cached groups while they are clean, and fresh ones otherwise. */
    method GroupByRequest() returns (out: seq<RequestGroup>)
      requires Valid()
      modifies this`groupsDirty, this`groupsCache
      ensures !groupsDirty && out == groupsCache
      ensures old(groupsDirty) ==> PossibleGroups(goroutines, out)
      ensures !old(groupsDirty) ==> out == old(groupsCache)
      ensures old(GroupsCoherent()) ==>
        PossibleGroups(goroutines, out) && GroupedByLabels(goroutines, out) && GroupsCoherent()
      ensures old(ContentionCoherent()) ==> ContentionCoherent()
    {
      if !groupsDirty {
        CoherentByLabels(goroutines, groupsCache);
        return groupsCache;
      }
      groupsCache := BuildRequestGroups(goroutines);
      groupsDirty := false;
      out := groupsCache;
    }

    /** What changed since a revision, in order of id: what appeared after it, and what was there before. */
    method DeltaSince(revision: nat) returns (now: nat, added: seq<Goroutine>, updated: seq<Goroutine>)
      requires Valid()
      ensures now == dataVersion
      ensures ListsById(added, Added(TrackedNow(), revision))
      ensures ListsById(updated, Updated(TrackedNow(), revision))
    {
      now, added, updated := dataVersion, [], [];
      ghost var a, u := Added(TrackedNow(), revision), Updated(TrackedNow(), revision);
      var left := goroutines.Keys;
      while left != {}
        invariant left <= goroutines.Keys
        invariant Gathers(added, a, goroutines.Keys - left) && Gathers(updated, u, goroutines.Keys - left)
        decreases left
      {
        var id := Pick(left);
        GatherStep(added, a, goroutines.Keys - left, id);
        GatherStep(updated, u, goroutines.Keys - left, id);
        assert goroutines.Keys - (left - {id}) == (goroutines.Keys - left) + {id};
        left := left - {id};
        if At(goroutineChangedAt, id) > revision {
          if At(goroutineBornAt, id) > revision {
            added := added + [goroutines[id]];
          } else {
            updated := updated + [goroutines[id]];
          }
        }
      }
      GatheredAll(added, a, goroutines.Keys);
      GatheredAll(updated, u, goroutines.Keys);
      added := SortById(added, a);
      updated := SortById(updated, u);
    }

    // ── Export ───────────────────────────────────────────────────────────────

    method ExportEvents() returns (events: seq<Event>, ghost sorted: seq<Numbered>, ghost last: nat)
      requires Valid()
      ensures Numbers(sorted, goroutines, goroutines.Keys, last) && Sorted(sorted, EarlierFirst)
      ensures events == EventsOf(sorted)
    {
      var numbered: seq<Numbered>, seqNo: nat := [], 0;
      var left := goroutines.Keys;
      while left != {}
        invariant left <= goroutines.Keys
        invariant Numbers(numbered, goroutines, goroutines.Keys - left, seqNo)
        decreases left
      {
        var id := Pick(left);
        var g := goroutines[id];
        NumberStep(numbered, goroutines, goroutines.Keys - left, seqNo, id);
        ghost var before := numbered;
        ghost var more := NumberedEvents(g, seqNo);
        assert goroutines.Keys - (left - {id}) == (goroutines.Keys - left) + {id};
        left := left - {id};
        seqNo := seqNo + 1;
        numbered := numbered + [Numbered(CreateEvent(g), seqNo)];
        if g.state != Unset {
          seqNo := seqNo + 1;
          numbered := numbered + [Numbered(StateEvent(g), seqNo)];
        }
        assert numbered == before + more;
      }
      assert goroutines.Keys - {} == goroutines.Keys;
      last := seqNo;
      var inOrder := SortSlice(numbered, EarlierFirst);
      SortedNumbers(numbered, inOrder, goroutines, last);
      sorted := inOrder;
      events := EventsOf(inOrder);
    }

    method ExportStacks() returns (stacks: seq<Snapshot>)
      requires Filed(stacksByGID)
      ensures Holds(stacksByGID, stacks)
    {
      stacks := [];
      var left := stacksByGID.Keys;
      while left != {}
        invariant left <= stacksByGID.Keys
        invariant ListedUpTo(stacksByGID, stacks, left)
        decreases left
      {
        var k := Pick(left);
        NextHistory(stacksByGID, stacks, left, k);
        left := left - {k};
        stacks := stacks + stacksByGID[k];
      }
    }

    /** A capture of the records, with every history, edge and processor segment. */
    method ExportCapture() returns (capture: Capture)
      requires Valid()
      ensures IsExport(Now(), capture) && InTimeOrder(capture.events) && EventsOfRecords(capture.events, goroutines)
      ensures Holds(stacksByGID, capture.stacks)
      ensures capture.resources == edges && capture.processors == processorSegments
    {
      var events, sorted, last := ExportEvents();
      var stacks := ExportStacks();
      capture := Capture(events, stacks,
                         map id | id in goroutines && goroutines[id].parent != 0 :: goroutines[id].parent,
                         map id | id in goroutines && goroutines[id].labels != map[] :: goroutines[id].labels,
                         edges, processorSegments);
      SortedIsExport(Now(), sorted, last, capture);
      SortedEvents(sorted, goroutines, last);
    }
  }

  lemma KeepOpen(active: map<int, Active>, id: int)
    ensures active == if OpenOf(active, id).Some? then active[id := OpenOf(active, id).value] else active - {id}
  {
  }

  /** What the parts of an event's step add up to. */
  lemma Stored(s: Tracked, max: int, event: Event, closed: seq<Segment>, active: map<int, Active>)
    requires event.goroutine != 0
    requires var id, current := event.goroutine, Lookup(s.core.goroutines, event.goroutine);
      var (open, closing) := Switch(id, OpenOf(s.core.active, id), current, Advance(current, event), Normalize(event));
      && closed == Trim(s.core.closed + (if closing.Some? then [closing.value] else []), max)
      && active == if open.Some? then s.core.active[id := open.value] else s.core.active - {id}
    ensures var next := Advance(Lookup(s.core.goroutines, event.goroutine), event);
      ApplyTracked(s, max, event)
      == Tracked(Core(s.core.goroutines[next.id := next], closed, active), Stamp(s.rev, next.id))
  {
  }

  lemma NothingYet()
    ensures WellKeyed(EMPTY) && Opened(EMPTY) && Filed(map[]) && Count<int, Snapshot>(map[]) == 0
  {
  }

  /** The histories of all goroutines but those left. */
  ghost predicate ListedUpTo(histories: map<int, seq<Snapshot>>, stacks: seq<Snapshot>, left: set<int>) {
    forall id :: StacksOf(stacks, id) == if id in left then [] else HistoryAt(histories, id)
  }

  lemma NextHistory(histories: map<int, seq<Snapshot>>, stacks: seq<Snapshot>, left: set<int>, k: int)
    requires Filed(histories) && k in left && k in histories && ListedUpTo(histories, stacks, left)
    ensures ListedUpTo(histories, stacks + histories[k], left - {k})
  {
    forall id
      ensures StacksOf(stacks + histories[k], id) == if id in left - {k} then [] else HistoryAt(histories, id)
    {
      OneMoreHistory(stacks, histories[k], k, id);
    }
  }

  lemma MergeNothing(gs: map<int, Goroutine>)
    ensures MergeParents(gs, map[]) == gs && MergeLabels(gs, map[]) == gs
  {
  }

  lemma CoherentByLabels(gs: map<int, Goroutine>, cache: seq<RequestGroup>)
    ensures PossibleGroups(gs, cache) ==> GroupedByLabels(gs, cache)
  {
    if PossibleGroups(gs, cache) {
      LabelGroupsMean(gs, cache);
    }
  }

  lemma GroupsAfterParents(gs: map<int, Goroutine>, ids: map<int, int>, dirty: bool, cache: seq<RequestGroup>)
    requires Keyed(gs)
    ensures dirty || PossibleGroups(gs, cache) ==>
      (dirty || PossibleGroups(MergeParents(gs, ids), cache) <==> dirty || Harmless(gs, ids, cache))
  {
    if !dirty && PossibleGroups(gs, cache) {
      ParentsStaleIff(gs, ids, cache);
    }
  }

  /** Records that keep their ids and times keep the timeline. */
  lemma SameTimeline(c: Core, goroutines: map<int, Goroutine>)
    requires WellKeyed(c) && Opened(c) && goroutines.Keys == c.goroutines.Keys
    requires forall id :: id in goroutines ==>
      goroutines[id].id == c.goroutines[id].id && goroutines[id].lastSeenAt == c.goroutines[id].lastSeenAt
    ensures var d := c.(goroutines := goroutines);
      && WellKeyed(d) && Opened(d) && DerivedSet(d) == DerivedSet(c)
      && forall cache :: Coherent(d, cache) <==> Coherent(c, cache)
  {
  }

  lemma {:induction false} SnapshotsOpened(c: Core, snapshots: seq<Snapshot>)
    requires WellKeyed(c) && Opened(c)
    ensures WellKeyed(ApplySnapshots(c, snapshots)) && Opened(ApplySnapshots(c, snapshots))
  {
    if snapshots != [] {
      SnapshotsOpened(c, snapshots[..|snapshots| - 1]);
      SnapshotOpened(ApplySnapshots(c, snapshots[..|snapshots| - 1]), snapshots[|snapshots| - 1]);
    }
  }

  /** Tracking revisions changes nothing about the records. */
  lemma {:induction false} TrackedRuns(version: nat, log: seq<Event>, max: int)
    ensures RunTracked(Fresh(version), log, max).core == Run(log, max)
  {
    if log != [] {
      TrackedRuns(version, log[..|log| - 1], max);
    }
  }

  lemma MergeParent(before: map<int, Goroutine>, ids: map<int, int>, left: set<int>, id: int)
    requires id in left && left <= ids.Keys
    ensures MergeParents(before, ids - ids.Keys) == before
    ensures var now := MergeParents(before, ids - left);
      MergeParents(before, ids - (left - {id}))
      == if id in now && now[id].parent == 0 then now[id := now[id].(parent := ids[id])] else now
  {
  }

  lemma MergeLabel(before: map<int, Goroutine>, overrides: map<int, Labels>, left: set<int>, id: int)
    requires id in left && left <= overrides.Keys
    ensures MergeLabels(before, overrides - overrides.Keys) == before
    ensures var now := MergeLabels(before, overrides - left);
      MergeLabels(before, overrides - (left - {id}))
      == if id in now && overrides[id] != map[]
         then now[id := now[id].(labels := now[id].labels + overrides[id])] else now
  {
    var now := MergeLabels(before, overrides - left);
    if id in now && overrides[id] == map[] {
      assert now[id].labels + overrides[id] == now[id].labels;
    }
  }
}
