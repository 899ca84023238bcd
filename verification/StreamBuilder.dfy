/** The streaming builder: transitions go to an engine as they are read, what is left over at the end of the trace. */
module StreamBuilder {
  import opened EngineCore
  import opened EngineExport
  import opened EngineLive
  import opened Model
  import opened TraceModel
  import opened Engine

  // ── Segments emitted at once and at the end ────────────────────────────────

  lemma {:induction false} KeptCount(runs: seq<ProcessorSegment>, kept: set<int>, s: ProcessorSegment)
    ensures multiset(OnlyKept(runs, kept))[s] == if s.goroutine in kept then multiset(runs)[s] else 0
  {
    if runs != [] {
      var rest, last := runs[..|runs| - 1], runs[|runs| - 1];
      assert runs == rest + [last];
      KeptCount(rest, kept, s);
    }
  }

  /** Every run is emitted or held back, and those emitted are kept goroutines'. */
  ghost predicate Split(emitted: seq<ProcessorSegment>, held: seq<ProcessorSegment>, runs: seq<ProcessorSegment>,
                        kept: set<int>)
  {
    && multiset(emitted) + multiset(held) == multiset(runs)
    && forall s :: s in emitted ==> s.goroutine in kept
  }

  lemma SplitMore(emitted: seq<ProcessorSegment>, held: seq<ProcessorSegment>, kept: set<int>, ts: seq<Transition>,
                  t: Transition, emitted': seq<ProcessorSegment>, held': seq<ProcessorSegment>)
    requires Split(emitted, held, Runs(ts), kept)
    requires var closed := ClosedBy(Slots(ts), t);
      if t.goroutine in kept then emitted' == emitted + closed && held' == held
      else emitted' == emitted && held' == held + closed
    ensures Split(emitted', held', Runs(ts + [t]), kept)
  {
    var closed := ClosedBy(Slots(ts), t);
    RunsMore(ts, t);
    assert multiset(Runs(ts) + closed) == multiset(Runs(ts)) + multiset(closed);
    if t.goroutine in kept {
      assert multiset(emitted + closed) == multiset(emitted) + multiset(closed);
    } else {
      assert multiset(held + closed) == multiset(held) + multiset(closed);
    }
  }

  /** A goroutine once kept stays kept. */
  lemma SplitKeepsMore(emitted: seq<ProcessorSegment>, held: seq<ProcessorSegment>, runs: seq<ProcessorSegment>,
                       kept: set<int>, more: set<int>)
    requires Split(emitted, held, runs, kept) && kept <= more
    ensures Split(emitted, held, runs, more)
  {
  }

  /** None twice and none lost: what was emitted early and what is released at the end are all the kept runs. */
  lemma EmittedAndReleased(emitted: seq<ProcessorSegment>, raw: seq<ProcessorSegment>, runs: seq<ProcessorSegment>,
                           kept: set<int>)
    requires Split(emitted, raw, runs, kept)
    ensures multiset(emitted + OnlyKept(raw, kept)) == multiset(OnlyKept(runs, kept))
  {
    forall s
      ensures multiset(emitted + OnlyKept(raw, kept))[s] == multiset(OnlyKept(runs, kept))[s]
    {
      KeptCount(raw, kept, s);
      KeptCount(runs, kept, s);
      assert multiset(runs)[s] == multiset(emitted)[s] + multiset(raw)[s];
      assert s in multiset(emitted) ==> s in emitted;
    }
  }

  /** The builder's maps are those of the transitions read. */
  ghost predicate Follows(rel: Relevance, ts: seq<Transition>, kept: set<int>, parents: map<int, int>,
                          slots: map<int, Slot>)
  {
    kept == KeptIds(rel, ts) && parents == Parents(ts) && slots == Slots(ts)
  }

  /** The writer has had the script of the transitions read. */
  ghost predicate Streamed(rel: Relevance, ts: seq<Transition>, max: int, c: Core) {
    c == RunLive(Script(rel, ts), max)
  }

  lemma Skipped(rel: Relevance, ts: seq<Transition>, t: Transition, max: int, c: Core)
    requires Streamed(rel, ts, max, c)
    requires t.goroutine !in KeptIds(rel, ts) && !UserStack(rel, t.stack) && t.goroutine != 1
    ensures KeptIds(rel, ts + [t]) == KeptIds(rel, ts) && Streamed(rel, ts + [t], max, c)
  {
  }

  lemma Passed(rel: Relevance, ts: seq<Transition>, t: Transition, max: int, c: Core)
    requires Streamed(rel, ts, max, c)
    requires t.goroutine in KeptIds(rel, ts) || UserStack(rel, t.stack) || t.goroutine == 1
    ensures KeptIds(rel, ts + [t]) == KeptIds(rel, ts) + {t.goroutine}
    ensures Streamed(rel, ts + [t], max, AfterStep(c, StepOf(rel, t, Parents(ts + [t])), max))
  {
  }

  function AfterStep(c: Core, s: Step, max: int): Core {
    var after := ApplyEvent(c, max, s.event);
    if s.stack.Some? then ApplySnapshot(after, s.stack.value) else after
  }

  class StreamBuilder {
    const rel: Relevance
    const writer: Engine
    var keptGoroutine: set<int>
    var parentIDs: map<int, int>
    var activePSlots: map<int, Slot>
    var rawPSegments: seq<ProcessorSegment>

    /** The transitions read so far. */
    ghost var Seen: seq<Transition>

    ghost predicate Valid()
      reads this, writer
    {
      && writer.Valid()
      && Follows(rel, Seen, keptGoroutine, parentIDs, activePSlots)
      && Split(writer.processorSegments, rawPSegments, Runs(Seen), keptGoroutine)
      && Streamed(rel, Seen, writer.maxClosedSegments, writer.Now())
    }

    /** The writer is an engine just made or reset. */
    constructor (relevance: Relevance, engine: Engine)
      requires engine.Valid() && engine.Now() == EMPTY && engine.processorSegments == []
      ensures Valid() && Seen == [] && rel == relevance && writer == engine
    {
      rel, writer := relevance, engine;
      keptGoroutine, parentIDs, activePSlots, rawPSegments := {}, map[], map[], [];
      Seen := [];
    }

    method RecordParent(t: Transition)
      modifies this`parentIDs
      ensures parentIDs == StepParents(old(parentIDs), t)
    {
      if t.from.GoNotExist? || t.from.GoUndetermined? {
        if t.running > 0 && t.running != t.goroutine {
          parentIDs := parentIDs[t.goroutine := t.running];
        }
      }
    }

    /** A run that ends goes to the writer at once if its goroutine is kept by now, and is held back otherwise. */
    method TrackProcessor(t: Transition)
      requires writer.Valid()
      modifies this`activePSlots, this`rawPSegments, writer`processorSegments, writer`dataVersion
      ensures activePSlots == StepSlots(old(activePSlots), t) && writer.Valid() && writer.Now() == old(writer.Now())
      ensures var closed := ClosedBy(old(activePSlots), t);
        if t.goroutine in keptGoroutine then
          writer.processorSegments == old(writer.processorSegments) + closed && rawPSegments == old(rawPSegments)
        else
          writer.processorSegments == old(writer.processorSegments) && rawPSegments == old(rawPSegments) + closed
    {
      if t.from.GoRunning? {
        if t.goroutine in activePSlots {
          var slot := activePSlots[t.goroutine];
          if t.time > slot.start {
            var seg := ProcessorSegment(slot.processor, t.goroutine, slot.start, t.time);
            if t.goroutine in keptGoroutine {
              writer.AddProcessorSegments([seg]);
            } else {
              rawPSegments := rawPSegments + [seg];
            }
          }
          activePSlots := activePSlots - {t.goroutine};
        }
      }
      if t.to.GoRunning? {
        if t.processor >= 0 {
          activePSlots := activePSlots[t.goroutine := Slot(t.processor, t.time)];
        }
      }
    }

    /** The part of a transition that does not depend on whether its goroutine is kept. */
    method Track(t: Transition)
      requires writer.Valid() && activePSlots == Slots(Seen)
      requires Split(writer.processorSegments, rawPSegments, Runs(Seen), keptGoroutine)
      modifies this`parentIDs, this`activePSlots, this`rawPSegments, writer`processorSegments, writer`dataVersion
      ensures writer.Valid() && writer.Now() == old(writer.Now())
      ensures parentIDs == StepParents(old(parentIDs), t) && activePSlots == StepSlots(old(activePSlots), t)
      ensures Split(writer.processorSegments, rawPSegments, Runs(Seen + [t]), keptGoroutine)
    {
      ghost var emitted, held := writer.processorSegments, rawPSegments;
      RecordParent(t);
      TrackProcessor(t);
      SplitMore(emitted, held, keptGoroutine, Seen, t, writer.processorSegments, rawPSegments);
    }

    method ReadNext(t: Transition)
      requires writer.Valid() && parentIDs == Parents(Seen) && activePSlots == Slots(Seen)
      requires Split(writer.processorSegments, rawPSegments, Runs(Seen), keptGoroutine)
      modifies this`parentIDs, this`activePSlots, this`rawPSegments, this`Seen
      modifies writer`processorSegments, writer`dataVersion
      ensures writer.Valid() && writer.Now() == old(writer.Now()) && Seen == old(Seen) + [t]
      ensures parentIDs == Parents(Seen) && activePSlots == Slots(Seen)
      ensures Split(writer.processorSegments, rawPSegments, Runs(Seen), keptGoroutine)
    {
      ghost var parents, slots := parentIDs, activePSlots;
      Track(t);
      MapsMore(Seen, t, parents, slots);
      Seen := Seen + [t];
    }

    /** The event of a kept transition goes to the writer, and then its stack. */
    method Emit(t: Transition)
      requires writer.Valid()
      modifies writer`goroutines, writer`closedSegments, writer`activeSegments, writer`dataVersion
      modifies writer`goroutineBornAt, writer`goroutineChangedAt, writer`contentionDirty, writer`groupsDirty
      modifies writer`stacksByGID, writer`stackCount
      ensures writer.Valid()
      ensures writer.Now() == AfterStep(old(writer.Now()), StepOf(rel, t, parentIDs), writer.maxClosedSegments)
    {
      var event, stack := ReadStep(rel, t, parentIDs);
      writer.ApplyEvent(event);
      if stack.Some? {
        writer.ApplyStackSnapshot(stack.value);
      }
    }

    /** The goroutine of the last transition is kept from now on. */
    method Pass(t: Transition, ghost before: seq<Transition>)
      requires Seen == before + [t] && keptGoroutine == KeptIds(rel, before) && parentIDs == Parents(Seen)
      requires activePSlots == Slots(Seen) && Split(writer.processorSegments, rawPSegments, Runs(Seen), keptGoroutine)
      requires writer.Valid() && Streamed(rel, before, writer.maxClosedSegments, writer.Now())
      requires t.goroutine in keptGoroutine || UserStack(rel, t.stack) || t.goroutine == 1
      modifies this`keptGoroutine, writer`goroutines, writer`closedSegments, writer`activeSegments, writer`dataVersion,
               writer`goroutineBornAt, writer`goroutineChangedAt, writer`contentionDirty, writer`groupsDirty,
               writer`stacksByGID, writer`stackCount
      ensures Valid() && t.goroutine in keptGoroutine
    {
      Passed(rel, before, t, writer.maxClosedSegments, writer.Now());
      SplitKeepsMore(writer.processorSegments, rawPSegments, Runs(Seen), keptGoroutine, keptGoroutine + {t.goroutine});
      keptGoroutine := keptGoroutine + {t.goroutine};
      Emit(t);
    }

    /** One more transition of the trace; emitted tells whether the writer got an event. */
    method AppendEvent(t: Transition) returns (emitted: bool)
      requires Valid()
      modifies this, writer
      ensures Valid() && Seen == old(Seen) + [t]
      ensures emitted == (t.goroutine in keptGoroutine)
    {
      ghost var before := Seen;
      ReadNext(t);
      var user := HasUserFrame(rel, t.stack);
      if t.goroutine !in keptGoroutine && !user && t.goroutine != 1 {
        Skipped(rel, before, t, writer.maxClosedSegments, writer.Now());
        return false;
      }
      Pass(t, before);
      return true;
    }

    /** The parents of the kept goroutines, as known at the end. */
    function KeptParents(): map<int, int>
      reads this
    {
      map id | id in parentIDs && id in keptGoroutine :: parentIDs[id]
    }

    method KeptSegments() returns (keptSegs: seq<ProcessorSegment>)
      ensures keptSegs == OnlyKept(rawPSegments, keptGoroutine)
    {
      keptSegs := [];
      for i := 0 to |rawPSegments|
        invariant keptSegs == OnlyKept(rawPSegments[..i], keptGoroutine)
      {
        assert rawPSegments[..i + 1][..i] == rawPSegments[..i];
        if rawPSegments[i].goroutine in keptGoroutine {
          keptSegs := keptSegs + [rawPSegments[i]];
        }
      }
      assert rawPSegments[..|rawPSegments|] == rawPSegments;
    }

    /**
     The end of the trace: kept parents and held-back runs of kept goroutines go to the writer. It then
     holds the same processor segments as the capture of the trace, and for a trace in order the same
     records and timeline.
     */
    method Finish()
      requires Valid()
      modifies writer
      ensures multiset(writer.processorSegments) == multiset(CaptureOf(rel, Seen).processors)
      ensures RealTrace(Seen) ==> writer.Now() == LoadCore(CaptureOf(rel, Seen), writer.maxClosedSegments)
    {
      if RealTrace(Seen) {
        StreamedEqualsLoaded(rel, Seen, writer.maxClosedSegments);
      }
      EmittedAndReleased(writer.processorSegments, rawPSegments, Runs(Seen), keptGoroutine);
      var kept := KeptParents();
      writer.SetParentIDs(kept);
      var keptSegs := KeptSegments();
      writer.AddProcessorSegments(keptSegs);
    }
  }
}
