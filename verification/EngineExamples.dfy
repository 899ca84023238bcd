/** Short runs of an engine that end where a cache or a delta falls behind. */
module EngineExamples {
  import opened EngineCaches
  import opened EngineCore
  import opened EngineDelta
  import opened EngineListing
  import opened EngineLive
  import opened Engine
  import opened Model
  import opened Options
  import opened StateMachine

  /** Goroutine 1 blocks on a mutex at time 1. */
  const BLOCKED := Event(1, StateChange, 1, 0, Blocked, Because("mutex_lock"), "mutex", map[])

  /** Its stack, taken at time 2. */
  const STACK := Snapshot(2, 1, [])

  /** Nothing is known of goroutine 1 but that it waits. */
  lemma WaitOpened(s: Tracked)
    requires s == Fresh(0)
    ensures Overtakes(ApplyTracked(s, 0, BLOCKED).core, STACK)
  {
    var n := Advance(ZERO, BLOCKED);
    assert n.id == 1 && n.state == Blocked && n.lastSeenAt == 1 && n.resource == "mutex";
  }

  /** The metrics were fresh, a stack taken later made them wrong, and nothing marks them. */
  method StaleContention() returns (engine: Engine)
    ensures engine.Valid() && !engine.contentionDirty && !engine.ContentionCoherent()
  {
    engine := new Engine(0, 0);
    WaitOpened(engine.TrackedNow());
    engine.ApplyEvent(BLOCKED);
    var metrics := engine.GetResourceContention();
    assert Coherent(engine.Now(), engine.contentionCache);
    engine.ApplyStackSnapshot(STACK);
  }

  /** A goroutine first seen in a stack is known to the engine and in no answer to a client. */
  method UnsentGoroutine() returns (engine: Engine, added: seq<Goroutine>, updated: seq<Goroutine>)
    ensures engine.Valid() && 1 in engine.goroutines && added == [] && updated == []
  {
    engine := new Engine(0, 0);
    ghost var start := engine.TrackedNow();
    engine.ApplyStackSnapshot(STACK);
    SnapshotNeverSent(start, 0, STACK);
    OneChange(start, 0, Stacked(STACK));
    var version;
    version, added, updated := engine.DeltaSince(0);
    NothingListed(added);
    NothingListed(updated);
  }

  lemma NothingListed(out: seq<Goroutine>)
    requires ListsById(out, map[])
    ensures out == []
  {
    HasFirst(out);
  }

  lemma HasFirst<T>(s: seq<T>)
    ensures s == [] || s[0] in s
  {
  }
}
