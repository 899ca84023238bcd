/** Revision stamps, and deltas that bring a client up to date. */
module EngineDelta {
  import opened EngineCore
  import opened EngineExport
  import opened EngineLive
  import opened Model
  import opened Options
  import opened StateMachine

  /** The data version, and the versions at which goroutines appeared and last changed. */
  datatype Revisions = Revisions(version: nat, bornAt: map<int, nat>, changedAt: map<int, nat>)

  function Stamp(r: Revisions, id: int): Revisions {
    var v := r.version + 1;
    Revisions(v, if id in r.bornAt then r.bornAt else r.bornAt[id := v], r.changedAt[id := v])
  }

  datatype Tracked = Tracked(core: Core, rev: Revisions)

  function ApplyTracked(s: Tracked, max: int, e: Event): Tracked {
    if e.goroutine == 0 then s
    else Tracked(ApplyEvent(s.core, max, e), Stamp(s.rev, Advance(Lookup(s.core.goroutines, e.goroutine), e).id))
  }

  function RunTracked(s: Tracked, log: seq<Event>, max: int): Tracked {
    if log == [] then s else ApplyTracked(RunTracked(s, log[..|log| - 1], max), max, log[|log| - 1])
  }

  /** The operations that change goroutines. Only events stamp theirs. */
  datatype Change = Happened(event: Event) | Stacked(snapshot: Snapshot) | Parented(ids: map<int, int>)
                  | Relabelled(overrides: map<int, Labels>)

  /** A change without a stamp: the version goes up and nothing else is told. */
  function Unstamped(s: Tracked, core: Core): Tracked {
    Tracked(core, s.rev.(version := s.rev.version + 1))
  }

  function ApplyChange(s: Tracked, max: int, ch: Change): Tracked {
    match ch
    case Happened(e) => ApplyTracked(s, max, e)
    case Stacked(sn) => if sn.goroutine == 0 then s else Unstamped(s, ApplySnapshot(s.core, sn))
    case Parented(ids) =>
      if ids == map[] then s else Unstamped(s, s.core.(goroutines := MergeParents(s.core.goroutines, ids)))
    case Relabelled(overrides) =>
      if overrides == map[] then s else Unstamped(s, s.core.(goroutines := MergeLabels(s.core.goroutines, overrides)))
  }

  function RunChanges(s: Tracked, changes: seq<Change>, max: int): Tracked {
    if changes == [] then s
    else ApplyChange(RunChanges(s, changes[..|changes| - 1], max), max, changes[|changes| - 1])
  }

  /** Right after a reset at some version. */
  ghost predicate Reset(s: Tracked) {
    s.core == EMPTY && s.rev.bornAt == map[] && s.rev.changedAt == map[]
  }

  function At(m: map<int, nat>, id: int): nat {
    if id in m then m[id] else 0
  }

  /** Goroutines changed since revision r that appeared after it. */
  function Added(s: Tracked, r: nat): map<int, Goroutine> {
    map id | id in s.core.goroutines && At(s.rev.changedAt, id) > r && At(s.rev.bornAt, id) > r ::
      s.core.goroutines[id]
  }

  /** Goroutines changed since revision r that were there before. */
  function Updated(s: Tracked, r: nat): map<int, Goroutine> {
    map id | id in s.core.goroutines && At(s.rev.changedAt, id) > r && At(s.rev.bornAt, id) <= r ::
      s.core.goroutines[id]
  }

  /** The goroutines a client holds once it has laid a delta over what it held. */
  function Patched(held: Tracked, now: Tracked): map<int, Goroutine> {
    held.core.goroutines + Added(now, held.rev.version) + Updated(now, held.rev.version)
  }

  // ── What stamps tell ───────────────────────────────────────────────────────

  /** Stamps belong to known goroutines and lie between 1 and the version. */
  ghost predicate Stamped(s: Tracked) {
    && WellKeyed(s.core)
    && s.rev.bornAt.Keys == s.rev.changedAt.Keys <= s.core.goroutines.Keys
    && forall id :: id in s.rev.bornAt ==> 0 < s.rev.bornAt[id] <= s.rev.changedAt[id] <= s.rev.version
  }

  ghost predicate EventFor(changes: seq<Change>, id: int) {
    exists i :: EventAt(changes, id, i)
  }

  ghost predicate EventAt(changes: seq<Change>, id: int, i: int) {
    0 <= i < |changes| && changes[i].Happened? && changes[i].event.goroutine == id
  }

  lemma EventForSnoc(changes: seq<Change>, id: int)
    requires changes != []
    ensures EventFor(changes, id) <==>
      EventFor(changes[..|changes| - 1], id) || EventAt(changes, id, |changes| - 1)
  {
    var rest := changes[..|changes| - 1];
    if i :| EventAt(rest, id, i) {
      assert EventAt(changes, id, i);
    }
    if i :| EventAt(changes, id, i) {
      assert i < |rest| ==> EventAt(rest, id, i);
    }
  }

  /** The later state's stamps say which goroutines have had an event since, and which had had one before. */
  ghost predicate StampsTell(s: Tracked, changes: seq<Change>, later: Tracked) {
    && s.rev.version <= later.rev.version && s.core.goroutines.Keys <= later.core.goroutines.Keys && Stamped(later)
    && (forall id :: id != 0 ==> (At(later.rev.changedAt, id) > s.rev.version <==> EventFor(changes, id)))
    && (forall id :: id in later.rev.bornAt ==> (later.rev.bornAt[id] <= s.rev.version <==> id in s.rev.bornAt))
    && (forall id :: id in s.rev.bornAt ==> id in later.rev.bornAt)
  }

  lemma AdvancedId(g: Goroutine, e: Event)
    requires e.goroutine != 0
    ensures Advance(g, e).id == if g.id == 0 then e.goroutine else g.id
  {
  }

  /** An event changes and stamps its own goroutine. */
  lemma EventStamps(s: Tracked, max: int, e: Event)
    requires Stamped(s) && e.goroutine != 0
    ensures var n := ApplyTracked(s, max, e);
      && Stamped(n) && n.rev == Stamp(s.rev, e.goroutine)
      && n.core.goroutines == s.core.goroutines[e.goroutine := Advance(Lookup(s.core.goroutines, e.goroutine), e)]
  {
    AdvancedId(Lookup(s.core.goroutines, e.goroutine), e);
  }

  /** Any other change keeps the stamps. */
  lemma OthersKeepStamps(s: Tracked, max: int, ch: Change)
    requires Stamped(s) && !ch.Happened?
    ensures var n := ApplyChange(s, max, ch);
      && Stamped(n) && n.rev.version >= s.rev.version
      && n.rev.bornAt == s.rev.bornAt && n.rev.changedAt == s.rev.changedAt
      && s.core.goroutines.Keys <= n.core.goroutines.Keys
  {
  }

  lemma {:induction false} RunStamps(s: Tracked, changes: seq<Change>, max: int)
    requires Stamped(s)
    ensures StampsTell(s, changes, RunChanges(s, changes, max))
  {
    if changes == [] {
      assert forall id, i :: !EventAt(changes, id, i);
    } else {
      var rest, ch := changes[..|changes| - 1], changes[|changes| - 1];
      RunStamps(s, rest, max);
      var before := RunChanges(s, rest, max);
      forall id
        ensures EventFor(changes, id) <==> EventFor(rest, id) || (ch.Happened? && ch.event.goroutine == id)
      {
        EventForSnoc(changes, id);
      }
      if ch.Happened? && ch.event.goroutine != 0 {
        EventStamps(before, max, ch.event);
      } else if !ch.Happened? {
        OthersKeepStamps(before, max, ch);
      }
    }
  }

  /** The delta holds the goroutines with an event since, split by whether they had had one before. */
  lemma DeltaMeans(s: Tracked, changes: seq<Change>, max: int, id: int)
    requires Stamped(s)
    ensures var now := RunChanges(s, changes, max);
      && (id in Added(now, s.rev.version) <==> id != 0 && EventFor(changes, id) && id !in s.rev.bornAt)
      && (id in Updated(now, s.rev.version) <==> id != 0 && EventFor(changes, id) && id in s.rev.bornAt)
  {
    RunStamps(s, changes, max);
  }

  // ── When a delta is enough ─────────────────────────────────────────────────

  /** The client already holds the goroutine as it is now. */
  predicate HeldAsIs(held: Tracked, now: Tracked, id: int) {
    id in held.core.goroutines && id in now.core.goroutines && held.core.goroutines[id] == now.core.goroutines[id]
  }

  /**
   A client of an earlier revision, patched with the delta since it, is right exactly when every goroutine
   that has had no event since is held as it is now.
   */
  lemma SyncExact(held: Tracked, changes: seq<Change>, max: int)
    requires Stamped(held)
    ensures var now := RunChanges(held, changes, max);
      Patched(held, now) == now.core.goroutines
      <==> forall id :: id in now.core.goroutines && !EventFor(changes, id) ==> HeldAsIs(held, now, id)
  {
    var now := RunChanges(held, changes, max);
    RunStamps(held, changes, max);
    forall id
      ensures AgreeAt(Patched(held, now), now.core.goroutines, id)
         <==> (id in now.core.goroutines && !EventFor(changes, id) ==> HeldAsIs(held, now, id))
    {
      PatchedAt(held, changes, now, id);
    }
    MapsAgree(Patched(held, now), now.core.goroutines);
  }

  predicate AgreeAt(m: map<int, Goroutine>, n: map<int, Goroutine>, id: int) {
    (id in m <==> id in n) && (id in m && id in n ==> m[id] == n[id])
  }

  lemma MapsAgree(m: map<int, Goroutine>, n: map<int, Goroutine>)
    ensures m == n <==> forall id :: AgreeAt(m, n, id)
  {
    if forall id :: AgreeAt(m, n, id) {
      forall id
        ensures (id in m <==> id in n) && (id in m ==> m[id] == n[id])
      {
        assert AgreeAt(m, n, id);
      }
    }
  }

  lemma PatchedAt(held: Tracked, changes: seq<Change>, now: Tracked, id: int)
    requires Stamped(held) && StampsTell(held, changes, now)
    ensures id != 0 && EventFor(changes, id) ==> id in now.core.goroutines
    ensures id != 0 && EventFor(changes, id) ==> AgreeAt(Patched(held, now), now.core.goroutines, id)
    ensures id == 0 || !EventFor(changes, id) ==> AgreeAt(Patched(held, now), held.core.goroutines, id)
  {
  }

  lemma ResetStamped(s: Tracked)
    requires Reset(s)
    ensures Stamped(s)
  {
  }

  /** Revision 0 asks for everything and gets it exactly when every goroutine has had an event. */
  lemma FromZeroExact(s0: Tracked, changes: seq<Change>, max: int)
    requires Reset(s0)
    ensures var now := RunChanges(s0, changes, max);
      && Updated(now, 0) == map[]
      && (Added(now, 0) == now.core.goroutines <==> forall id :: id in now.core.goroutines ==> EventFor(changes, id))
  {
    var now := RunChanges(s0, changes, max);
    ResetStamped(s0);
    RunStamps(s0, changes, max);
    forall id | id in now.core.goroutines
      ensures id in Added(now, 0) <==> EventFor(changes, id)
    {
    }
    if Added(now, 0) == now.core.goroutines {
      assert forall id :: id in now.core.goroutines ==> id in Added(now, 0);
    }
  }

  // ── Runs of events ─────────────────────────────────────────────────────────

  ghost predicate OnlyEvents(changes: seq<Change>) {
    forall ch :: ch in changes ==> ch.Happened?
  }

  lemma {:induction false} EventsTouchTheirOwn(s: Tracked, changes: seq<Change>, max: int, id: int)
    requires Stamped(s) && OnlyEvents(changes) && !EventFor(changes, id)
    ensures var now := RunChanges(s, changes, max);
      (id in now.core.goroutines <==> id in s.core.goroutines)
      && (id in s.core.goroutines ==> HeldAsIs(s, now, id))
  {
    if changes != [] {
      var rest, ch := changes[..|changes| - 1], changes[|changes| - 1];
      assert ch in changes && forall x :: x in rest ==> x in changes;
      EventForSnoc(changes, id);
      EventsTouchTheirOwn(s, rest, max, id);
      RunStamps(s, rest, max);
      if ch.event.goroutine != 0 {
        EventStamps(RunChanges(s, rest, max), max, ch.event);
      }
    }
  }

  lemma {:induction false} EventsStampAll(s: Tracked, changes: seq<Change>, max: int)
    requires Stamped(s) && OnlyEvents(changes) && s.rev.bornAt.Keys == s.core.goroutines.Keys
    ensures var now := RunChanges(s, changes, max); now.rev.bornAt.Keys == now.core.goroutines.Keys
  {
    if changes != [] {
      var rest, ch := changes[..|changes| - 1], changes[|changes| - 1];
      assert ch in changes && forall x :: x in rest ==> x in changes;
      EventsStampAll(s, rest, max);
      RunStamps(s, rest, max);
      if ch.event.goroutine != 0 {
        EventStamps(RunChanges(s, rest, max), max, ch.event);
      }
    }
  }

  /**
   Over runs of events a client of any earlier revision, patched with the delta since it, is right;
   additions are new to it, updates are not.
   */
  lemma DeltaSync(s0: Tracked, before: seq<Change>, after: seq<Change>, max: int)
    requires Reset(s0) && OnlyEvents(before) && OnlyEvents(after)
    ensures var held := RunChanges(s0, before, max);
      var now := RunChanges(held, after, max);
      && Patched(held, now) == now.core.goroutines
      && Added(now, held.rev.version).Keys !! held.core.goroutines.Keys
      && Updated(now, held.rev.version).Keys <= held.core.goroutines.Keys
  {
    ResetStamped(s0);
    RunStamps(s0, before, max);
    EventsStampAll(s0, before, max);
    var held := RunChanges(s0, before, max);
    var now := RunChanges(held, after, max);
    RunStamps(held, after, max);
    forall id | id in now.core.goroutines && !EventFor(after, id)
      ensures HeldAsIs(held, now, id)
    {
      EventsTouchTheirOwn(held, after, max, id);
    }
    SyncExact(held, after, max);
  }

  // ── What a client up to date misses, operation by operation ────────────────

  lemma NoEventInOne(ch: Change, id: int)
    requires !ch.Happened?
    ensures !EventFor([ch], id)
  {
    assert forall i :: !EventAt([ch], id, i);
  }

  lemma OneChange(s: Tracked, max: int, ch: Change)
    ensures RunChanges(s, [ch], max) == ApplyChange(s, max, ch)
  {
    assert [ch][..0] == [];
  }

  /** A change without a stamp reaches nobody: the client stays right exactly when no record changes. */
  lemma Missed(s: Tracked, max: int, ch: Change)
    requires Stamped(s) && !ch.Happened?
    ensures var now := ApplyChange(s, max, ch);
      Patched(s, now) == now.core.goroutines <==> now.core.goroutines == s.core.goroutines
  {
    var now := ApplyChange(s, max, ch);
    OneChange(s, max, ch);
    RunStamps(s, [ch], max);
    forall id
      ensures AgreeAt(Patched(s, now), s.core.goroutines, id)
    {
      NoEventInOne(ch, id);
      PatchedAt(s, [ch], now, id);
    }
    MapsAgree(Patched(s, now), s.core.goroutines);
  }

  lemma SameParents(gs: map<int, Goroutine>, ids: map<int, int>)
    ensures MergeParents(gs, ids) == gs <==> forall id :: id in ids && id in gs && gs[id].parent == 0 ==> ids[id] == 0
  {
    var merged := MergeParents(gs, ids);
    MapsAgree(merged, gs);
    forall id
      ensures AgreeAt(merged, gs, id) <==> (id in ids && id in gs && gs[id].parent == 0 ==> ids[id] == 0)
    {
    }
  }

  /** New parents are missed exactly when one is for a known goroutine without a parent. */
  lemma ParentsMissed(s: Tracked, max: int, ids: map<int, int>)
    requires Stamped(s)
    ensures var now := ApplyChange(s, max, Parented(ids));
      Patched(s, now) == now.core.goroutines
      <==> forall id :: id in ids && id in s.core.goroutines && s.core.goroutines[id].parent == 0 ==> ids[id] == 0
  {
    Missed(s, max, Parented(ids));
    SameParents(s.core.goroutines, ids);
  }

  /** The goroutine has every label of the override, with its value. */
  predicate HasLabels(labels: Labels, override: Labels) {
    forall k :: k in override ==> k in labels && labels[k] == override[k]
  }

  lemma OverlayChanges(labels: Labels, override: Labels)
    ensures labels + override == labels <==> HasLabels(labels, override)
  {
    if labels + override == labels {
      forall k | k in override
        ensures k in labels && labels[k] == override[k]
      {
        assert k in labels + override;
      }
    }
  }

  lemma SameLabels(gs: map<int, Goroutine>, overrides: map<int, Labels>)
    ensures MergeLabels(gs, overrides) == gs
       <==> forall id :: id in overrides && id in gs ==> HasLabels(gs[id].labels, overrides[id])
  {
    var merged := MergeLabels(gs, overrides);
    MapsAgree(merged, gs);
    forall id
      ensures AgreeAt(merged, gs, id) <==> (id in overrides && id in gs ==> HasLabels(gs[id].labels, overrides[id]))
    {
      if id in overrides && id in gs {
        OverlayChanges(gs[id].labels, overrides[id]);
      }
    }
  }

  /** Label overrides are missed exactly when one differs from what its known goroutine has. */
  lemma LabelsMissed(s: Tracked, max: int, overrides: map<int, Labels>)
    requires Stamped(s)
    ensures var now := ApplyChange(s, max, Relabelled(overrides));
      Patched(s, now) == now.core.goroutines
      <==> forall id :: id in overrides && id in s.core.goroutines ==>
             HasLabels(s.core.goroutines[id].labels, overrides[id])
  {
    Missed(s, max, Relabelled(overrides));
    SameLabels(s.core.goroutines, overrides);
  }

  /** A snapshot is missed unless its goroutine has it already and was seen no earlier. */
  lemma SnapshotMissed(s: Tracked, max: int, sn: Snapshot)
    requires Stamped(s) && sn.goroutine != 0
    ensures var now := ApplyChange(s, max, Stacked(sn));
      Patched(s, now) == now.core.goroutines <==>
      && sn.goroutine in s.core.goroutines && s.core.goroutines[sn.goroutine].lastStack == Some(sn)
      && sn.time <= s.core.goroutines[sn.goroutine].lastSeenAt
  {
    Missed(s, max, Stacked(sn));
    var gs, id := s.core.goroutines, sn.goroutine;
    var after := ApplySnapshot(s.core, sn).goroutines;
    assert after == gs[id := Attach(Lookup(gs, id), sn)];
    if id in gs {
      assert after == gs <==> after[id] == gs[id];
    } else {
      assert id in after;
    }
  }

  /** A goroutine first seen in a stack is in no answer, not even the full one, until it has an event. */
  lemma SnapshotNeverSent(s0: Tracked, max: int, sn: Snapshot)
    requires Reset(s0) && sn.goroutine != 0
    ensures var now := RunChanges(s0, [Stacked(sn)], max);
      sn.goroutine in now.core.goroutines && Added(now, 0) == map[] && Updated(now, 0) == map[]
  {
    OneChange(s0, max, Stacked(sn));
  }

  /** A parent learned after a client's last update never reaches it: 2 was started by 1. */
  lemma ParentNeverSent(s0: Tracked, max: int)
    requires Reset(s0)
    ensures var create := Event(1, Create, 2, 0, Unset, NoReason, "", map[]);
      var held := RunChanges(s0, [Happened(create)], max);
      var now := ApplyChange(held, max, Parented(map[2 := 1]));
      now.core.goroutines[2].parent == 1 && Patched(held, now) != now.core.goroutines
  {
    var create := Event(1, Create, 2, 0, Unset, NoReason, "", map[]);
    OneChange(s0, max, Happened(create));
    ResetStamped(s0);
    EventStamps(s0, max, create);
    ParentsMissed(ApplyTracked(s0, max, create), max, map[2 := 1]);
  }
}
