/** The batch builder: a whole trace read into one capture. */
module XBuilder {
  import opened EngineExport
  import opened EngineLive
  import opened Model
  import opened TraceModel

  /** What the script of the transitions read amounts to. */
  ghost predicate Scripted(rel: Relevance, ts: seq<Transition>, events: seq<Event>, stacks: seq<Snapshot>) {
    events == Events(Script(rel, ts)) && stacks == Stacks(Script(rel, ts))
  }

  lemma Skipped(rel: Relevance, ts: seq<Transition>, t: Transition, events: seq<Event>, stacks: seq<Snapshot>)
    requires Scripted(rel, ts, events, stacks)
    requires t.goroutine !in KeptIds(rel, ts) && !UserStack(rel, t.stack) && t.goroutine != 1
    ensures KeptIds(rel, ts + [t]) == KeptIds(rel, ts) && Scripted(rel, ts + [t], events, stacks)
  {
  }

  lemma Passed(rel: Relevance, ts: seq<Transition>, t: Transition, events: seq<Event>, stacks: seq<Snapshot>)
    requires Scripted(rel, ts, events, stacks)
    requires t.goroutine in KeptIds(rel, ts) || UserStack(rel, t.stack) || t.goroutine == 1
    ensures KeptIds(rel, ts + [t]) == KeptIds(rel, ts) + {t.goroutine}
    ensures var s := StepOf(rel, t, Parents(ts + [t]));
      Scripted(rel, ts + [t], events + [s.event], stacks + (if s.stack.Some? then [s.stack.value] else []))
  {
  }

  class XBuilder {
    const rel: Relevance
    var events: seq<Event>
    var stacks: seq<Snapshot>
    var keptGoroutine: set<int>
    var parentIDs: map<int, int>
    var activePSlots: map<int, Slot>
    var rawPSegments: seq<ProcessorSegment>

    /** The transitions read so far. */
    ghost var Seen: seq<Transition>

    ghost predicate Valid()
      reads this
    {
      && keptGoroutine == KeptIds(rel, Seen) && parentIDs == Parents(Seen) && activePSlots == Slots(Seen)
      && rawPSegments == Runs(Seen) && Scripted(rel, Seen, events, stacks)
    }

    constructor (relevance: Relevance)
      ensures Valid() && Seen == [] && rel == relevance
    {
      rel := relevance;
      events, stacks, keptGoroutine, parentIDs, activePSlots, rawPSegments := [], [], {}, map[], map[], [];
      Seen := [];
    }

    method RecordParent(t: Transition)
      modifies this`parentIDs
      ensures parentIDs == StepParents(old(parentIDs), t)
    {
      if t.from.GoNotExist? || t.from.GoUndetermined? {
        if t.running > 0 && t.running != t.goroutine {
          parentIDs := parentIDs[t.goroutine := t.running];
        }
      }
    }

    method TrackProcessor(t: Transition)
      modifies this`activePSlots, this`rawPSegments
      ensures activePSlots == StepSlots(old(activePSlots), t)
      ensures rawPSegments == old(rawPSegments) + ClosedBy(old(activePSlots), t)
    {
      if t.from.GoRunning? {
        if t.goroutine in activePSlots {
          var slot := activePSlots[t.goroutine];
          if t.time > slot.start {
            rawPSegments := rawPSegments + [ProcessorSegment(slot.processor, t.goroutine, slot.start, t.time)];
          }
          activePSlots := activePSlots - {t.goroutine};
        }
      }
      if t.to.GoRunning? {
        if t.processor >= 0 {
          activePSlots := activePSlots[t.goroutine := Slot(t.processor, t.time)];
        }
      }
    }

    /** The event of a kept transition, and its stack. */
    method Record(t: Transition)
      modifies this`events, this`stacks
      ensures var s := StepOf(rel, t, parentIDs);
        && events == old(events) + [s.event]
        && stacks == old(stacks) + (if s.stack.Some? then [s.stack.value] else [])
    {
      var event, stack := ReadStep(rel, t, parentIDs);
      events := events + [event];
      if stack.Some? {
        stacks := stacks + [stack.value];
      }
    }

    /** The part of a transition that does not depend on whether its goroutine is kept. */
    method ReadNext(t: Transition)
      requires parentIDs == Parents(Seen) && activePSlots == Slots(Seen) && rawPSegments == Runs(Seen)
      modifies this`parentIDs, this`activePSlots, this`rawPSegments, this`Seen
      ensures Seen == old(Seen) + [t]
      ensures parentIDs == Parents(Seen) && activePSlots == Slots(Seen) && rawPSegments == Runs(Seen)
    {
      MapsMore(Seen, t, parentIDs, activePSlots);
      RunsMore(Seen, t);
      RecordParent(t);
      TrackProcessor(t);
      Seen := Seen + [t];
    }

    /** One more transition of the trace. */
    method AppendXEvent(t: Transition)
      requires Valid()
      modifies this
      ensures Valid() && Seen == old(Seen) + [t]
    {
      ghost var before := Seen;
      ReadNext(t);
      var user := HasUserFrame(rel, t.stack);
      var keep := t.goroutine in keptGoroutine || user || t.goroutine == 1;
      if !keep {
        Skipped(rel, before, t, events, stacks);
        return;
      }
      Passed(rel, before, t, events, stacks);
      keptGoroutine := keptGoroutine + {t.goroutine};
      Record(t);
    }

    /** The capture of all that was read. */
    method Finish() returns (capture: Capture)
      requires Valid()
      ensures capture == CaptureOf(rel, Seen)
    {
      var kept := keptGoroutine;
      var parents := map id | id in parentIDs && id in kept :: parentIDs[id];
      var segments: seq<ProcessorSegment> := [];
      for i := 0 to |rawPSegments|
        invariant segments == OnlyKept(rawPSegments[..i], kept)
      {
        assert rawPSegments[..i + 1][..i] == rawPSegments[..i];
        if rawPSegments[i].goroutine in kept {
          segments := segments + [rawPSegments[i]];
        }
      }
      assert rawPSegments[..|rawPSegments|] == rawPSegments;
      capture := Capture(events, stacks, parents, map[], [], segments);
    }
  }
}
