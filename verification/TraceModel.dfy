/** What the goroutine state transitions of a runtime trace say, independent of how they are read. */
module TraceModel {
  import opened EngineCore
  import opened EngineExport
  import opened EngineLive
  import opened Model
  import opened Options

  datatype GoState = GoUndetermined | GoNotExist | GoRunnable | GoRunning | GoWaiting | GoSyscall

  /** running is the goroutine under way at the time, processor the P it happened on; -1 stands for none. */
  datatype Transition = Transition(goroutine: int, from: GoState, to: GoState, time: nat, processor: int, running: int,
                                   stack: seq<StackFrame>, reason: string)

  datatype Slot = Slot(processor: int, start: nat)

  /** Where the workspace and the Go sources lie, "" if unknown, and how path/filepath cleans a path. */
  datatype Relevance = Relevance(workspaceRoot: string, goSources: string, clean: string -> string)

  predicate Creates(t: Transition) {
    t.from.GoNotExist? || t.from.GoUndetermined?
  }

  // ── States, reasons, labels ────────────────────────────────────────────────

  function MapWaitingReason(reason: string): (State, Reason) {
    if reason == "chan receive" then (Blocked, Because("chan_recv"))
    else if reason == "chan send" then (Blocked, Because("chan_send"))
    else if reason == "select" then (Blocked, Because("select"))
    else if reason == "sync" then (Blocked, Because("mutex_lock"))
    else if reason == "sync.(*Cond).Wait" then (Waiting, Because("sync_cond"))
    else if reason == "sleep" then (Waiting, Because("sleep"))
    else if "GC" <= reason then (Waiting, Because("gc_assist"))
    else (Waiting, Unknown)
  }

  function MapState(to: GoState, reason: string): (State, Reason) {
    match to
    case GoRunning => (Running, NoReason)
    case GoRunnable => (Runnable, NoReason)
    case GoSyscall => (Syscall, Because("syscall"))
    case GoWaiting => MapWaitingReason(reason)
    case _ => (Waiting, Unknown)
  }

  // ── User code ──────────────────────────────────────────────────────────────

  predicate IsUserFunction(name: string) {
    && name != ""
    && !("runtime." <= name) && !("internal/" <= name) && !("syscall." <= name) && !("runtime/" <= name)
  }

  /** A frame in the workspace, or in a file outside the Go sources, or in a user function of no known file. */
  predicate IsRelevant(rel: Relevance, frame: StackFrame) {
    if frame.file != "" then
      var file := rel.clean(frame.file);
      if rel.workspaceRoot != "" && rel.workspaceRoot + "/" <= file then true
      else if rel.goSources != "" && rel.goSources <= file then false
      else file != "" || IsUserFunction(frame.func)
    else
      IsUserFunction(frame.func)
  }

  /** Neither the runtime nor an internal package. */
  ghost predicate IsUserName(name: string) {
    name != "" && forall i :: 0 <= i < |SYSTEM_PREFIXES| ==> !(SYSTEM_PREFIXES[i] <= name)
  }

  const SYSTEM_PREFIXES: seq<string> := ["runtime.", "internal/", "syscall.", "runtime/"]

  /** The path is below the directory. */
  predicate Below(root: string, path: string) {
    root != "" && root <= path
  }

  /** User code lies in the workspace, or in a file not below the Go sources, or is told by its name. */
  ghost predicate IsUserCode(rel: Relevance, frame: StackFrame) {
    if frame.file == "" then IsUserName(frame.func)
    else
      var path := rel.clean(frame.file);
      || (rel.workspaceRoot != "" && Below(rel.workspaceRoot + "/", path))
      || (!Below(rel.goSources, path) && (path != "" || IsUserName(frame.func)))
  }

  lemma RelevantMeans(rel: Relevance, frame: StackFrame)
    ensures IsRelevant(rel, frame) <==> IsUserCode(rel, frame)
  {
    var prefixes := SYSTEM_PREFIXES;
    assert prefixes[0] == "runtime." && prefixes[1] == "internal/" && prefixes[2] == "syscall."
        && prefixes[3] == "runtime/";
  }

  ghost predicate UserStack(rel: Relevance, stack: seq<StackFrame>) {
    exists f :: f in stack && IsRelevant(rel, f)
  }

  method HasUserFrame(rel: Relevance, frames: seq<StackFrame>) returns (has: bool)
    ensures has == UserStack(rel, frames)
    ensures has <==> exists f :: f in frames && IsUserCode(rel, f)
  {
    UserStackMeans(rel, frames);
    for i := 0 to |frames|
      invariant !UserStack(rel, frames[..i])
    {
      if IsRelevant(rel, frames[i]) {
        return true;
      }
      assert frames[..i + 1] == frames[..i] + [frames[i]];
    }
    assert frames[..|frames|] == frames;
    return false;
  }

  lemma UserStackMeans(rel: Relevance, stack: seq<StackFrame>)
    ensures UserStack(rel, stack) <==> exists f :: f in stack && IsUserCode(rel, f)
  {
    forall f | f in stack
      ensures IsRelevant(rel, f) <==> IsUserCode(rel, f)
    {
      RelevantMeans(rel, f);
    }
  }

  /** Frame i is the first of user code. */
  ghost predicate FirstUserAt(rel: Relevance, frames: seq<StackFrame>, i: int) {
    0 <= i < |frames| && IsUserCode(rel, frames[i]) && forall j :: 0 <= j < i ==> !IsUserCode(rel, frames[j])
  }

  lemma {:induction false} FirstUserMeans(rel: Relevance, frames: seq<StackFrame>)
    ensures forall i :: FirstUserAt(rel, frames, i) ==> FirstUser(rel, frames) == Some(frames[i])
    ensures (forall f :: f in frames ==> !IsUserCode(rel, f)) ==> FirstUser(rel, frames) == None
  {
    if frames != [] {
      RelevantMeans(rel, frames[0]);
      FirstUserMeans(rel, frames[1..]);
      forall i | FirstUserAt(rel, frames, i)
        ensures FirstUser(rel, frames) == Some(frames[i])
      {
        if i > 0 {
          assert FirstUserAt(rel, frames[1..], i - 1);
        }
      }
    }
  }

  /** The first user frame, or else the first frame, names the goroutine. */
  function Primary(rel: Relevance, frames: seq<StackFrame>): string {
    if frames == [] then ""
    else
      var user := FirstUser(rel, frames);
      if user.Some? then user.value.func else frames[0].func
  }

  function FirstUser(rel: Relevance, frames: seq<StackFrame>): Option<StackFrame> {
    if frames == [] then None else if IsRelevant(rel, frames[0]) then Some(frames[0]) else FirstUser(rel, frames[1..])
  }

  method PrimaryFunction(rel: Relevance, frames: seq<StackFrame>) returns (name: string)
    ensures name == Primary(rel, frames)
    ensures forall i :: FirstUserAt(rel, frames, i) ==> name == frames[i].func
    ensures (forall f :: f in frames ==> !IsUserCode(rel, f)) ==> name == if frames == [] then "" else frames[0].func
  {
    FirstUserMeans(rel, frames);
    for i := 0 to |frames|
      invariant FirstUser(rel, frames) == FirstUser(rel, frames[i..])
    {
      if IsRelevant(rel, frames[i]) {
        return frames[i].func;
      }
      assert frames[i..][1..] == frames[i + 1..];
    }
    if |frames| > 0 {
      return frames[0].func;
    }
    return "";
  }

  // ── What a run of transitions leads to ─────────────────────────────────────

  /** Goroutines known to be user code: kept from their first user frame on; goroutine 1 always. */
  ghost function KeptIds(rel: Relevance, ts: seq<Transition>): set<int> {
    set t | t in ts && (UserStack(rel, t.stack) || t.goroutine == 1) :: t.goroutine
  }

  function Parents(ts: seq<Transition>): map<int, int> {
    if ts == [] then map[]
    else StepParents(Parents(ts[..|ts| - 1]), ts[|ts| - 1])
  }

  function StepSlots(slots: map<int, Slot>, t: Transition): map<int, Slot> {
    var freed := if t.from.GoRunning? then slots - {t.goroutine} else slots;
    if t.to.GoRunning? && t.processor >= 0 then freed[t.goroutine := Slot(t.processor, t.time)] else freed
  }

  function ClosedBy(slots: map<int, Slot>, t: Transition): seq<ProcessorSegment> {
    if t.from.GoRunning? && t.goroutine in slots && t.time > slots[t.goroutine].start then
      [ProcessorSegment(slots[t.goroutine].processor, t.goroutine, slots[t.goroutine].start, t.time)]
    else []
  }

  /** The goroutines under way on a processor. */
  function Slots(ts: seq<Transition>): map<int, Slot> {
    if ts == [] then map[] else StepSlots(Slots(ts[..|ts| - 1]), ts[|ts| - 1])
  }

  /** Every stretch a goroutine ran on a processor. */
  function Runs(ts: seq<Transition>): seq<ProcessorSegment> {
    if ts == [] then []
    else Runs(ts[..|ts| - 1]) + ClosedBy(Slots(ts[..|ts| - 1]), ts[|ts| - 1])
  }

  ghost function OnlyKept(runs: seq<ProcessorSegment>, kept: set<int>): seq<ProcessorSegment> {
    if runs == [] then []
    else
      var last := runs[|runs| - 1];
      OnlyKept(runs[..|runs| - 1], kept) + (if last.goroutine in kept then [last] else [])
  }

  /** The kept goroutines' runs, each as often as it occurs, and no other. */
  lemma {:induction false} OnlyKeptMeans(runs: seq<ProcessorSegment>, kept: set<int>, s: ProcessorSegment)
    ensures multiset(OnlyKept(runs, kept))[s] == if s.goroutine in kept then multiset(runs)[s] else 0
  {
    if runs != [] {
      var rest, last := runs[..|runs| - 1], runs[|runs| - 1];
      OnlyKeptMeans(rest, kept, s);
      assert runs == rest + [last];
    }
  }

  function StepOf(rel: Relevance, t: Transition, parents: map<int, int>): Step {
    var name := Primary(rel, t.stack);
    var labels := if name != "" then map["function" := name] else map[];
    if t.to.GoNotExist? then
      Step(Event(t.time, End, t.goroutine, 0, Unset, NoReason, "", labels), None)
    else
      var (state, reason) := MapState(t.to, t.reason);
      var parent := if Creates(t) && t.goroutine in parents then parents[t.goroutine] else 0;
      Step(Event(t.time, if Creates(t) then Create else StateChange, t.goroutine, parent, state, reason, "", labels),
           if t.stack != [] then Some(Snapshot(t.time, t.goroutine, t.stack)) else None)
  }

  /** The event of a kept transition, and the stack that goes with it. */
  method ReadStep(rel: Relevance, t: Transition, parents: map<int, int>) returns (event: Event, stack: Option<Snapshot>)
    ensures Step(event, stack) == StepOf(rel, t, parents)
  {
    var name := PrimaryFunction(rel, t.stack);
    var labels: Labels := map[];
    if name != "" {
      labels := labels["function" := name];
    }
    if t.to.GoNotExist? {
      return Event(t.time, End, t.goroutine, 0, Unset, NoReason, "", labels), None;
    }
    var (state, reason) := MapState(t.to, t.reason);
    var kind := StateChange;
    if t.from.GoNotExist? || t.from.GoUndetermined? {
      kind := Create;
    }
    var parent := 0;
    if kind == Create && t.goroutine in parents {
      parent := parents[t.goroutine];
    }
    event := Event(t.time, kind, t.goroutine, parent, state, reason, "", labels);
    stack := None;
    if |t.stack| > 0 {
      stack := Some(Snapshot(t.time, t.goroutine, t.stack));
    }
  }

  /** The events of the kept goroutines, each with its stack. */
  ghost function Script(rel: Relevance, ts: seq<Transition>): seq<Step> {
    if ts == [] then []
    else
      var rest, t := Script(rel, ts[..|ts| - 1]), ts[|ts| - 1];
      if t.goroutine in KeptIds(rel, ts) then rest + [StepOf(rel, t, Parents(ts))] else rest
  }

  /** The capture of a whole trace. */
  ghost function CaptureOf(rel: Relevance, ts: seq<Transition>): Capture {
    var script, kept := Script(rel, ts), KeptIds(rel, ts);
    Capture(Events(script), Stacks(script), map id | id in Parents(ts) && id in kept :: Parents(ts)[id], map[], [],
            OnlyKept(Runs(ts), kept))
  }

  function StepParents(parents: map<int, int>, t: Transition): map<int, int> {
    if Creates(t) && t.running > 0 && t.running != t.goroutine then parents[t.goroutine := t.running] else parents
  }

  lemma RunsMore(ts: seq<Transition>, t: Transition)
    ensures Slots(ts + [t]) == StepSlots(Slots(ts), t)
    ensures Runs(ts + [t]) == Runs(ts) + ClosedBy(Slots(ts), t)
  {
  }

  lemma MapsMore(ts: seq<Transition>, t: Transition, parents: map<int, int>, slots: map<int, Slot>)
    requires parents == Parents(ts) && slots == Slots(ts)
    ensures StepParents(parents, t) == Parents(ts + [t]) && StepSlots(slots, t) == Slots(ts + [t])
  {
  }

  // ── Processor segments are runs ────────────────────────────────────────────

  /** Goroutine g gets onto a processor at i and nothing after it frees or retakes the slot. */
  ghost predicate StillRuns(ts: seq<Transition>, g: int, slot: Slot, i: int) {
    && 0 <= i < |ts| && ts[i].goroutine == g && ts[i].to.GoRunning? && 0 <= ts[i].processor == slot.processor
    && ts[i].time == slot.start
    && forall k :: i < k < |ts| && ts[k].goroutine == g ==>
         !ts[k].from.GoRunning? && !(ts[k].to.GoRunning? && ts[k].processor >= 0)
  }

  lemma {:induction false} SlotMeansRunning(ts: seq<Transition>, g: int, slot: Slot)
    ensures g in Slots(ts) && Slots(ts)[g] == slot <==> exists i :: StillRuns(ts, g, slot, i)
  {
    if ts != [] {
      var rest, t := ts[..|ts| - 1], ts[|ts| - 1];
      SlotMeansRunning(rest, g, slot);
      if g in Slots(ts) && Slots(ts)[g] == slot {
        if t.goroutine == g && t.to.GoRunning? && t.processor >= 0 {
          assert StillRuns(ts, g, slot, |ts| - 1);
        } else {
          var i :| StillRuns(rest, g, slot, i);
          assert StillRuns(ts, g, slot, i);
        }
      }
      if i :| StillRuns(ts, g, slot, i) {
        if i < |ts| - 1 {
          assert StillRuns(rest, g, slot, i);
        }
      }
    }
  }

  /** The segment is g's stretch from getting onto a processor at i to the end of that run at j. */
  ghost predicate RunBetween(ts: seq<Transition>, s: ProcessorSegment, i: int, j: int) {
    && 0 <= i < j < |ts| && s.start < s.end == ts[j].time && s.start >= 0
    && StillRuns(ts[..j], s.goroutine, Slot(s.processor, s.start), i)
    && ts[j].goroutine == s.goroutine && ts[j].from.GoRunning?
  }

  /** The processor segments are exactly the positive stretches from getting onto a processor to the end of that run. */
  lemma {:induction false} RunsAreStretches(ts: seq<Transition>, s: ProcessorSegment)
    ensures s in Runs(ts) <==> exists i, j :: RunBetween(ts, s, i, j)
  {
    if ts != [] {
      var rest, t := ts[..|ts| - 1], ts[|ts| - 1];
      RunsAreStretches(rest, s);
      assert forall j :: 0 <= j <= |rest| ==> ts[..j] == rest[..j];
      if s in Runs(ts) {
        if s in Runs(rest) {
          var i, j :| RunBetween(rest, s, i, j);
          assert RunBetween(ts, s, i, j);
        } else {
          SlotMeansRunning(rest, t.goroutine, Slots(rest)[t.goroutine]);
          var i :| StillRuns(rest, t.goroutine, Slots(rest)[t.goroutine], i);
          assert RunBetween(ts, s, i, |rest|);
        }
      }
      if i, j :| RunBetween(ts, s, i, j) {
        if j < |rest| {
          assert RunBetween(rest, s, i, j);
        } else {
          SlotMeansRunning(rest, s.goroutine, Slot(s.processor, s.start));
          assert ClosedBy(Slots(rest), t) == [s];
        }
      }
    }
  }

  ghost predicate InOrder(ts: seq<Transition>) {
    forall i, j :: 0 <= i < j < |ts| && ts[i].goroutine == ts[j].goroutine ==> ts[i].time <= ts[j].time
  }

  /** Nothing of goroutine g starts or ends after t. */
  ghost predicate NothingAfter(ts: seq<Transition>, g: int, t: int) {
    && (g in Slots(ts) ==> Slots(ts)[g].start <= t)
    && (forall s :: s in Runs(ts) && s.goroutine == g ==> s.end <= t)
  }

  lemma {:induction false} RunsEndBy(ts: seq<Transition>, g: int, t: int)
    requires forall x :: x in ts && x.goroutine == g ==> x.time <= t
    ensures NothingAfter(ts, g, t)
  {
    if ts != [] {
      var rest, x := ts[..|ts| - 1], ts[|ts| - 1];
      assert x in ts && forall y :: y in rest ==> y in ts;
      RunsEndBy(rest, g, t);
    }
  }

  /** Segments have positive length, and those of one goroutine follow each other without overlap. */
  lemma {:induction false} RunsDisjoint(ts: seq<Transition>)
    requires InOrder(ts)
    ensures forall s :: s in Runs(ts) ==> s.start < s.end
    ensures forall i, j :: 0 <= i < j < |Runs(ts)| && Runs(ts)[i].goroutine == Runs(ts)[j].goroutine ==>
      Runs(ts)[i].end <= Runs(ts)[j].start
    ensures forall s :: s in Runs(ts) && s.goroutine in Slots(ts) ==> s.end <= Slots(ts)[s.goroutine].start
  {
    if ts != [] {
      var rest, t := ts[..|ts| - 1], ts[|ts| - 1];
      RunsDisjoint(rest);
      forall x | x in rest && x.goroutine == t.goroutine
        ensures x.time <= t.time
      {
        var i :| 0 <= i < |rest| && rest[i] == x;
        assert ts[i] == x;
      }
      RunsEndBy(rest, t.goroutine, t.time);
      forall i | 0 <= i < |Runs(rest)|
        ensures Runs(rest)[i] in Runs(rest)
      {
      }
    }
  }

  // ── The script is a live trace ─────────────────────────────────────────────

  /** Real goroutines at real times, in order goroutine by goroutine. */
  ghost predicate RealTrace(ts: seq<Transition>) {
    InOrder(ts) && forall t :: t in ts ==> t.goroutine != 0 && t.time > 0
  }

  /** The steps come from transitions, in order. */
  ghost predicate FromTransitions(script: seq<Step>, ts: seq<Transition>) {
    && (forall s :: s in script ==> exists t :: t in ts && s.event.goroutine == t.goroutine && s.event.time == t.time)
    && (forall s :: s in script && s.stack.Some? ==>
          s.stack.value.goroutine == s.event.goroutine && s.stack.value.time == s.event.time)
  }

  lemma {:induction false} ScriptIsLive(rel: Relevance, ts: seq<Transition>)
    requires RealTrace(ts)
    ensures LiveTrace(Script(rel, ts)) && FromTransitions(Script(rel, ts), ts)
  {
    if ts != [] {
      var rest, t := ts[..|ts| - 1], ts[|ts| - 1];
      assert ts == rest + [t];
      RealPrefix(rest, t);
      ScriptIsLive(rel, rest);
      var step := StepOf(rel, t, Parents(ts));
      StepKeeps(rel, t, Parents(ts));
      OneMoreStep(Script(rel, rest), rest, step, t);
      assert Script(rel, ts) == Script(rel, rest) || Script(rel, ts) == Script(rel, rest) + [step];
    }
  }

  lemma RealPrefix(rest: seq<Transition>, t: Transition)
    requires RealTrace(rest + [t])
    ensures RealTrace(rest)
  {
    var ts := rest + [t];
    assert forall i :: 0 <= i < |rest| ==> ts[i] == rest[i];
    assert forall x :: x in rest ==> x in ts;
  }

  lemma StepKeeps(rel: Relevance, t: Transition, parents: map<int, int>)
    ensures var s := StepOf(rel, t, parents);
      && s.event.goroutine == t.goroutine && s.event.time == t.time
      && (s.stack.Some? ==> s.stack.value.goroutine == t.goroutine && s.stack.value.time == t.time)
  {
  }

  lemma OneMoreStep(script: seq<Step>, ts: seq<Transition>, s: Step, t: Transition)
    requires LiveTrace(script) && FromTransitions(script, ts) && RealTrace(ts + [t])
    requires s.event.goroutine == t.goroutine && s.event.time == t.time
    requires s.stack.Some? ==> s.stack.value.goroutine == t.goroutine && s.stack.value.time == t.time
    ensures LiveTrace(script + [s]) && FromTransitions(script + [s], ts + [t]) && FromTransitions(script, ts + [t])
  {
    assert t in ts + [t] && forall x :: x in ts ==> x in ts + [t];
    forall i | 0 <= i < |script| && script[i].event.goroutine == s.event.goroutine
      ensures script[i].event.time <= s.event.time
    {
      assert script[i] in script;
      var x :| x in ts && script[i].event.goroutine == x.goroutine && script[i].event.time == x.time;
      var k :| 0 <= k < |ts| && ts[k] == x;
      assert (ts + [t])[k] == x && (ts + [t])[|ts|] == t;
    }
  }

  // ── Streaming equals batch ─────────────────────────────────────────────────

  /**
   An engine that gets each event with its stack as the trace goes, and the kept parents at the end,
   ends up with the records and segments of one that loads the whole trace's capture.
   */
  lemma StreamedEqualsLoaded(rel: Relevance, ts: seq<Transition>, max: int)
    requires RealTrace(ts)
    ensures var live, capture := RunLive(Script(rel, ts), max), CaptureOf(rel, ts);
      LoadCore(capture, max) == live.(goroutines := MergeParents(live.goroutines, capture.parents))
  {
    ScriptIsLive(rel, ts);
    LiveEqualsBatch(Script(rel, ts), max);
    NoLabels(RunLive(Script(rel, ts), max), CaptureOf(rel, ts), max);
  }

  lemma NoLabels(c: Core, capture: Capture, max: int)
    requires c == ApplySnapshots(Run(capture.events, max), capture.stacks) && capture.labels == map[]
    ensures LoadCore(capture, max) == c.(goroutines := MergeParents(c.goroutines, capture.parents))
  {
  }
}
