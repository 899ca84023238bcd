/** What the engine shows of a goroutine after streaming a trace, read off the trace itself. */
module TraceRecords {
  import opened EngineCore
  import opened EngineLive
  import opened EngineRecords
  import opened EngineTimeline
  import opened Model
  import opened Options
  import opened StateMachine
  import opened TraceModel

  ghost predicate LastTransition(ts: seq<Transition>, g: int, j: int) {
    0 <= j < |ts| && ts[j].goroutine == g && forall k :: j < k < |ts| ==> ts[k].goroutine != g
  }

  /** The transition that makes goroutine g user code. */
  ghost predicate FirstKept(rel: Relevance, ts: seq<Transition>, g: int, i: int) {
    0 <= i < |ts| && g in KeptIds(rel, ts[..i + 1]) && g !in KeptIds(rel, ts[..i])
  }

  /** A wait the runtime gives this reason for. */
  predicate WaitsFor(t: Transition, reason: string) {
    t.to.GoWaiting? && t.reason == reason
  }

  /** The state a transition puts its goroutine in. */
  ghost predicate MeansState(t: Transition, state: State) {
    && (state == Done <==> t.to.GoNotExist?)
    && (state == Running <==> t.to.GoRunning?)
    && (state == Runnable <==> t.to.GoRunnable?)
    && (state == Syscall <==> t.to.GoSyscall?)
    && (state == Waiting || state == Blocked <==> t.to.GoWaiting? || t.to.GoUndetermined?)
    && (state == Blocked <==> || WaitsFor(t, "chan receive") || WaitsFor(t, "chan send")
                              || WaitsFor(t, "select") || WaitsFor(t, "sync"))
  }

  /** The runtime's reasons that have a reason of their own here. */
  predicate NamesWait(reason: string) {
    || reason == "chan receive" || reason == "chan send" || reason == "select" || reason == "sync"
    || reason == "sync.(*Cond).Wait" || reason == "sleep" || "GC" <= reason
  }

  /** The reason it gives, reason by reason. */
  ghost predicate MeansReason(t: Transition, reason: Reason) {
    && (reason == NoReason <==> t.to.GoRunning? || t.to.GoRunnable? || t.to.GoNotExist?)
    && (reason == Because("syscall") <==> t.to.GoSyscall?)
    && (reason == Because("chan_recv") <==> WaitsFor(t, "chan receive"))
    && (reason == Because("chan_send") <==> WaitsFor(t, "chan send"))
    && (reason == Because("select") <==> WaitsFor(t, "select"))
    && (reason == Because("mutex_lock") <==> WaitsFor(t, "sync"))
    && (reason == Because("sync_cond") <==> WaitsFor(t, "sync.(*Cond).Wait"))
    && (reason == Because("sleep") <==> WaitsFor(t, "sleep"))
    && (reason == Because("gc_assist") <==> t.to.GoWaiting? && "GC" <= t.reason)
    && (reason == Unknown <==> t.to.GoUndetermined? || (t.to.GoWaiting? && !NamesWait(t.reason)))
  }

  /** A creation under another goroutine, which becomes the parent. */
  predicate NamesCreator(t: Transition, g: int) {
    t.goroutine == g && (t.from.GoNotExist? || t.from.GoUndetermined?) && t.running > 0 && t.running != g
  }

  /** The last such creation so far. */
  ghost predicate LastCreation(ts: seq<Transition>, g: int, i: int) {
    0 <= i < |ts| && NamesCreator(ts[i], g) && forall k :: i < k < |ts| ==> !NamesCreator(ts[k], g)
  }

  /** A kept creation with a creator to name. */
  ghost predicate WithParent(rel: Relevance, ts: seq<Transition>, g: int, i: int) {
    && 0 <= i < |ts| && ts[i].goroutine == g && Creates(ts[i]) && !ts[i].to.GoNotExist?
    && g in KeptIds(rel, ts[..i + 1]) && g in Parents(ts[..i + 1])
  }

  ghost predicate FirstWithParent(rel: Relevance, ts: seq<Transition>, g: int, i: int) {
    WithParent(rel, ts, g, i) && forall k :: 0 <= k < i ==> !WithParent(rel, ts, g, k)
  }

  // ── One transition more ────────────────────────────────────────────────────

  /** The record the streamed events of goroutine g lead to. */
  ghost function StreamedRecord(rel: Relevance, ts: seq<Transition>, g: int): Goroutine {
    After(Events(Script(rel, ts)), g)
  }

  lemma EventsSnoc(script: seq<Step>, s: Step)
    ensures Events(script + [s]) == Events(script) + [s.event]
  {
  }

  lemma OneMoreTransition(rel: Relevance, ts: seq<Transition>, t: Transition, g: int)
    ensures StreamedRecord(rel, ts + [t], g) ==
      if t.goroutine == g && g in KeptIds(rel, ts + [t])
      then Advance(StreamedRecord(rel, ts, g), StepOf(rel, t, Parents(ts + [t])).event)
      else StreamedRecord(rel, ts, g)
  {
    assert (ts + [t])[..|ts|] == ts;
    var step := StepOf(rel, t, Parents(ts + [t]));
    EventsSnoc(Script(rel, ts), step);
    StepKeeps(rel, t, Parents(ts + [t]));
    assert (Events(Script(rel, ts)) + [step.event])[..|Events(Script(rel, ts))|] == Events(Script(rel, ts));
  }

  /** Goroutine 1, or user code on the stack. */
  ghost predicate Keeps(rel: Relevance, ts: seq<Transition>, g: int, i: int) {
    && 0 <= i < |ts| && ts[i].goroutine == g
    && (g == 1 || exists f :: f in ts[i].stack && IsUserCode(rel, f))
  }

  /** A goroutine is kept from its first transition with user code on the stack, goroutine 1 from its first. */
  lemma KeptMeans(rel: Relevance, ts: seq<Transition>, g: int)
    ensures g in KeptIds(rel, ts) <==> exists i :: Keeps(rel, ts, g, i)
  {
    forall t | t in ts
      ensures UserStack(rel, t.stack) <==> exists f :: f in t.stack && IsUserCode(rel, f)
    {
      UserStackMeans(rel, t.stack);
    }
    if g in KeptIds(rel, ts) {
      var t :| t in ts && (UserStack(rel, t.stack) || t.goroutine == 1) && t.goroutine == g;
      var i :| 0 <= i < |ts| && ts[i] == t;
      assert Keeps(rel, ts, g, i);
    }
  }

  lemma KeptSnoc(rel: Relevance, ts: seq<Transition>, t: Transition, g: int)
    ensures g in KeptIds(rel, ts + [t])
       <==> g in KeptIds(rel, ts) || (t.goroutine == g && (UserStack(rel, t.stack) || g == 1))
  {
  }

  lemma GCReasons(reason: string)
    ensures "GC" <= reason ==> reason != "" && reason[0] == 'G'
  {
  }

  lemma WaitMeans(t: Transition)
    requires t.to.GoWaiting?
    ensures var (state, reason) := MapWaitingReason(t.reason); MeansState(t, state) && MeansReason(t, reason)
  {
    GCReasons(t.reason);
  }

  lemma MapMeans(t: Transition)
    requires !t.to.GoNotExist?
    ensures var (state, reason) := MapState(t.to, t.reason);
      && MeansState(t, state) && MeansReason(t, reason) && state != Unset
      && (IsWaitState(state) <==> reason != NoReason)
  {
    if t.to.GoWaiting? {
      WaitMeans(t);
    }
  }

  lemma StepSays(rel: Relevance, t: Transition, parents: map<int, int>)
    ensures var e := StepOf(rel, t, parents).event;
      IsTimelineKind(e.kind) && MeansState(t, Said(e).0) && MeansReason(t, Said(e).1)
  {
    if !t.to.GoNotExist? {
      MapMeans(t);
    }
  }

  /** The event of a transition: its goroutine and time, what it is, whom it names, what it says. */
  lemma StepMeans(rel: Relevance, t: Transition, parents: map<int, int>)
    ensures var e := StepOf(rel, t, parents).event;
      && e.goroutine == t.goroutine && e.time == t.time && e.resource == ""
      && (e.kind == End <==> t.to.GoNotExist?)
      && (e.kind == Create <==> !t.to.GoNotExist? && (t.from.GoNotExist? || t.from.GoUndetermined?))
      && (e.kind == End || e.kind == Create || e.kind == StateChange)
      && (e.parent == if e.kind == Create && t.goroutine in parents then parents[t.goroutine] else 0)
      && MeansState(t, Said(e).0) && MeansReason(t, Said(e).1)
  {
    StepSays(rel, t, parents);
  }

  // ── State, times ───────────────────────────────────────────────────────────

  lemma {:induction false} StreamedKept(rel: Relevance, ts: seq<Transition>, g: int)
    requires RealTrace(ts)
    ensures g !in KeptIds(rel, ts) ==> StreamedRecord(rel, ts, g) == ZERO
    ensures g in KeptIds(rel, ts) ==> StreamedRecord(rel, ts, g).id == g != 0
  {
    if ts != [] {
      var rest, t := ts[..|ts| - 1], ts[|ts| - 1];
      assert ts == rest + [t];
      RealPrefix(rest, t);
      StreamedKept(rel, rest, g);
      OneMoreTransition(rel, rest, t, g);
      KeptSnoc(rel, rest, t, g);
      assert t in ts;
      StepKeeps(rel, t, Parents(ts));
      AdvanceId(StreamedRecord(rel, rest, g), StepOf(rel, t, Parents(ts)).event);
    }
  }

  /** The record is as the transition leaves it. */
  ghost predicate LeftBy(t: Transition, r: Goroutine) {
    && MeansState(t, r.state) && MeansReason(t, r.reason) && r.lastSeenAt == t.time
    && (r.isAlive <==> !t.to.GoNotExist?)
  }

  lemma StepLeaves(before: Goroutine, rel: Relevance, t: Transition, parents: map<int, int>)
    requires t.time > 0
    ensures LeftBy(t, Advance(before, StepOf(rel, t, parents).event))
  {
    var e := StepOf(rel, t, parents).event;
    StepSays(rel, t, parents);
    StepKeeps(rel, t, parents);
    LastEventDecides(before, e);
    AdvanceTime(before, e);
  }

  /** A kept goroutine stands where its last transition put it. */
  lemma {:induction false} StreamedLast(rel: Relevance, ts: seq<Transition>, g: int, j: int)
    requires RealTrace(ts) && g in KeptIds(rel, ts) && LastTransition(ts, g, j)
    ensures LeftBy(ts[j], StreamedRecord(rel, ts, g))
  {
    var rest, t := ts[..|ts| - 1], ts[|ts| - 1];
    assert ts == rest + [t];
    RealPrefix(rest, t);
    OneMoreTransition(rel, rest, t, g);
    KeptSnoc(rel, rest, t, g);
    if t.goroutine == g {
      assert t in ts;
      StepLeaves(StreamedRecord(rel, rest, g), rel, t, Parents(ts));
    } else {
      StreamedLast(rel, rest, g, j);
    }
  }

  /** Both times, if the record is there. */
  ghost predicate BornAt(g: Goroutine, id: int, time: nat) {
    g.id == id && g.createdAt == g.bornNS == time
  }

  lemma StreamedStep(rel: Relevance, ts: seq<Transition>, t: Transition, g: int)
    requires RealTrace(ts + [t]) && t.goroutine == g && g in KeptIds(rel, ts + [t])
    ensures t.time > 0
    ensures g !in KeptIds(rel, ts) ==> BornAt(StreamedRecord(rel, ts + [t], g), g, t.time)
    ensures forall time: nat :: time > 0 && BornAt(StreamedRecord(rel, ts, g), g, time) ==>
      BornAt(StreamedRecord(rel, ts + [t], g), g, time)
  {
    var before, e := StreamedRecord(rel, ts, g), StepOf(rel, t, Parents(ts + [t])).event;
    assert t in ts + [t];
    RealPrefix(ts, t);
    StreamedKept(rel, ts, g);
    OneMoreTransition(rel, ts, t, g);
    StepKeeps(rel, t, Parents(ts + [t]));
    if before == ZERO || (before.createdAt > 0 && BornAt(before, g, before.createdAt)) {
      TimesStep(before, e);
    }
  }

  lemma FirstKeptSnoc(rel: Relevance, ts: seq<Transition>, t: Transition, g: int, i: int)
    requires FirstKept(rel, ts + [t], g, i)
    ensures i < |ts| ==> FirstKept(rel, ts, g, i)
    ensures i == |ts| ==> t.goroutine == g && g in KeptIds(rel, ts + [t]) && g !in KeptIds(rel, ts)
  {
    if i < |ts| {
      assert ts[..i + 1] == (ts + [t])[..i + 1] && ts[..i] == (ts + [t])[..i];
    } else {
      assert (ts + [t])[..i + 1] == ts + [t] && (ts + [t])[..i] == ts;
      KeptSnoc(rel, ts, t, g);
    }
  }

  /** It was created, as far as the engine knows, when it turned out to be user code. */
  lemma {:induction false} StreamedFirst(rel: Relevance, ts: seq<Transition>, g: int, i: int)
    requires RealTrace(ts) && FirstKept(rel, ts, g, i)
    ensures ts[i].time > 0 && BornAt(StreamedRecord(rel, ts, g), g, ts[i].time)
  {
    var rest, t := ts[..|ts| - 1], ts[|ts| - 1];
    assert ts == rest + [t];
    FirstKeptSnoc(rel, rest, t, g, i);
    if i < |rest| {
      RealPrefix(rest, t);
      StreamedFirst(rel, rest, g, i);
      OneMoreTransition(rel, rest, t, g);
      if t.goroutine == g && g in KeptIds(rel, ts) {
        StreamedStep(rel, rest, t, g);
      }
    } else {
      StreamedStep(rel, rest, t, g);
    }
  }

  // ── Parent ─────────────────────────────────────────────────────────────────

  /** The creator of a goroutine is the one under way at its last creation by another. */
  lemma {:induction false} ParentsMean(ts: seq<Transition>, g: int)
    ensures g in Parents(ts) <==> exists i :: LastCreation(ts, g, i)
    ensures forall i :: LastCreation(ts, g, i) ==> Parents(ts)[g] == ts[i].running > 0
  {
    if ts != [] {
      var rest, t := ts[..|ts| - 1], ts[|ts| - 1];
      ParentsMean(rest, g);
      if NamesCreator(t, g) {
        assert LastCreation(ts, g, |rest|);
      } else {
        assert forall i :: 0 <= i < |rest| ==> (LastCreation(ts, g, i) <==> LastCreation(rest, g, i));
      }
    }
  }

  lemma {:induction false} ParentsPositive(ts: seq<Transition>, g: int)
    requires g in Parents(ts)
    ensures Parents(ts)[g] > 0
  {
    var rest, t := ts[..|ts| - 1], ts[|ts| - 1];
    if !NamesCreator(t, g) {
      ParentsPositive(rest, g);
    }
  }

  lemma StepParent(rel: Relevance, ts: seq<Transition>, g: int)
    requires ts != [] && ts[|ts| - 1].goroutine == g && g in KeptIds(rel, ts)
    ensures var e := StepOf(rel, ts[|ts| - 1], Parents(ts)).event;
      && (NamesParent(e, g) <==> WithParent(rel, ts, g, |ts| - 1))
      && (NamesParent(e, g) ==> e.parent == Parents(ts)[g])
  {
    assert ts[..|ts|] == ts;
    if g in Parents(ts) {
      ParentsPositive(ts, g);
    }
  }

  /** The parent is the creator known at the first kept creation that has one to name. */
  ghost predicate ParentShown(rel: Relevance, ts: seq<Transition>, g: int, parent: int) {
    && (parent == 0 ==> forall k :: !WithParent(rel, ts, g, k))
    && (parent != 0 ==> exists i :: FirstWithParent(rel, ts, g, i) && parent == Parents(ts[..i + 1])[g])
  }

  lemma ParentedSnoc(rel: Relevance, ts: seq<Transition>, t: Transition, g: int)
    ensures forall k :: 0 <= k < |ts| ==> (WithParent(rel, ts + [t], g, k) <==> WithParent(rel, ts, g, k))
  {
    forall k | 0 <= k < |ts|
      ensures WithParent(rel, ts + [t], g, k) <==> WithParent(rel, ts, g, k)
    {
      assert (ts + [t])[..k + 1] == ts[..k + 1];
    }
  }

  lemma ParentStays(rel: Relevance, ts: seq<Transition>, t: Transition, g: int, parent: int)
    requires ParentShown(rel, ts, g, parent)
    requires parent != 0 || !WithParent(rel, ts + [t], g, |ts|)
    ensures ParentShown(rel, ts + [t], g, parent)
  {
    ParentedSnoc(rel, ts, t, g);
    if parent != 0 {
      var i :| FirstWithParent(rel, ts, g, i) && parent == Parents(ts[..i + 1])[g];
      assert (ts + [t])[..i + 1] == ts[..i + 1];
      assert FirstWithParent(rel, ts + [t], g, i);
    }
  }

  lemma ParentNow(rel: Relevance, ts: seq<Transition>, g: int, i: int)
    requires FirstWithParent(rel, ts, g, i) && i + 1 == |ts|
    ensures g in Parents(ts) && ParentShown(rel, ts, g, Parents(ts)[g])
  {
    assert ts[..i + 1] == ts;
    ParentsPositive(ts, g);
  }

  lemma ParentFound(rel: Relevance, ts: seq<Transition>, t: Transition, g: int)
    requires ParentShown(rel, ts, g, 0) && WithParent(rel, ts + [t], g, |ts|)
    ensures g in Parents(ts + [t]) && ParentShown(rel, ts + [t], g, Parents(ts + [t])[g])
  {
    ParentedSnoc(rel, ts, t, g);
    ParentNow(rel, ts + [t], g, |ts|);
  }

  lemma {:induction false} StreamedParent(rel: Relevance, ts: seq<Transition>, g: int)
    ensures ParentShown(rel, ts, g, StreamedRecord(rel, ts, g).parent)
  {
    if ts != [] {
      var rest, t := ts[..|ts| - 1], ts[|ts| - 1];
      assert ts == rest + [t];
      StreamedParent(rel, rest, g);
      OneMoreTransition(rel, rest, t, g);
      var before := StreamedRecord(rel, rest, g);
      if t.goroutine == g && g in KeptIds(rel, ts) {
        ParentStep(before, StepOf(rel, t, Parents(ts)).event, g);
        StepParent(rel, ts, g);
      }
      if before.parent == 0 && WithParent(rel, ts, g, |rest|) {
        ParentFound(rel, rest, t, g);
      } else {
        ParentStays(rel, rest, t, g, before.parent);
      }
    }
  }

  // ── Name and stack ─────────────────────────────────────────────────────────

  /** What a transition may bring along: a function name, or a stack to keep. */
  datatype Load = Name | Stack

  predicate Brings(rel: Relevance, t: Transition, load: Load) {
    match load
    case Name => Primary(rel, t.stack) != ""
    case Stack => !t.to.GoNotExist? && t.stack != []
  }

  ghost predicate KeptWith(rel: Relevance, ts: seq<Transition>, g: int, load: Load, i: int) {
    0 <= i < |ts| && ts[i].goroutine == g && g in KeptIds(rel, ts[..i + 1]) && Brings(rel, ts[i], load)
  }

  ghost predicate LastWith(rel: Relevance, ts: seq<Transition>, g: int, load: Load, i: int) {
    KeptWith(rel, ts, g, load, i) && forall k :: i < k < |ts| ==> !KeptWith(rel, ts, g, load, k)
  }

  ghost predicate NoneWith(rel: Relevance, ts: seq<Transition>, g: int, load: Load) {
    forall i :: !KeptWith(rel, ts, g, load, i)
  }

  lemma KeptWithSnoc(rel: Relevance, ts: seq<Transition>, t: Transition, g: int, load: Load, i: int)
    ensures i < |ts| ==> (KeptWith(rel, ts + [t], g, load, i) <==> KeptWith(rel, ts, g, load, i))
    ensures KeptWith(rel, ts + [t], g, load, |ts|)
       <==> t.goroutine == g && g in KeptIds(rel, ts + [t]) && Brings(rel, t, load)
  {
    assert 0 <= i < |ts| ==> (ts + [t])[..i + 1] == ts[..i + 1];
    assert (ts + [t])[..|ts| + 1] == ts + [t];
  }

  lemma LastWithSnoc(rel: Relevance, ts: seq<Transition>, t: Transition, g: int, load: Load)
    ensures var brings := t.goroutine == g && g in KeptIds(rel, ts + [t]) && Brings(rel, t, load);
      && (forall i :: LastWith(rel, ts + [t], g, load, i) ==>
            if brings then i == |ts| else LastWith(rel, ts, g, load, i))
      && (NoneWith(rel, ts + [t], g, load) ==> !brings && NoneWith(rel, ts, g, load))
  {
    forall i
      ensures i < |ts| ==> (KeptWith(rel, ts + [t], g, load, i) <==> KeptWith(rel, ts, g, load, i))
    {
      KeptWithSnoc(rel, ts, t, g, load, i);
    }
    KeptWithSnoc(rel, ts, t, g, load, |ts|);
  }

  lemma StepNames(rel: Relevance, t: Transition, parents: map<int, int>)
    ensures StepOf(rel, t, parents).event.labels
         == if Brings(rel, t, Name) then map["function" := Primary(rel, t.stack)] else map[]
    ensures StepOf(rel, t, parents).stack
         == if Brings(rel, t, Stack) then Some(Snapshot(t.time, t.goroutine, t.stack)) else None
  {
  }

  /** The labels are the function of the last kept transition that names one. */
  ghost predicate NameShown(rel: Relevance, ts: seq<Transition>, g: int, labels: Labels) {
    && (NoneWith(rel, ts, g, Name) ==> labels == map[])
    && forall i :: LastWith(rel, ts, g, Name, i) ==> labels == map["function" := Primary(rel, ts[i].stack)]
  }

  lemma OneMoreLabels(rel: Relevance, ts: seq<Transition>, t: Transition, g: int)
    ensures StreamedRecord(rel, ts + [t], g).labels ==
      if t.goroutine == g && g in KeptIds(rel, ts + [t]) && Brings(rel, t, Name)
      then StreamedRecord(rel, ts, g).labels + map["function" := Primary(rel, t.stack)]
      else StreamedRecord(rel, ts, g).labels
  {
    OneMoreTransition(rel, ts, t, g);
    StepNames(rel, t, Parents(ts + [t]));
    LabelsStep(StreamedRecord(rel, ts, g), StepOf(rel, t, Parents(ts + [t])).event);
  }

  lemma {:induction false} StreamedName(rel: Relevance, ts: seq<Transition>, g: int)
    ensures StreamedRecord(rel, ts, g).labels.Keys <= {"function"}
    ensures NameShown(rel, ts, g, StreamedRecord(rel, ts, g).labels)
  {
    if ts != [] {
      var rest, t := ts[..|ts| - 1], ts[|ts| - 1];
      assert ts == rest + [t];
      StreamedName(rel, rest, g);
      OneMoreLabels(rel, rest, t, g);
      NameSnoc(rel, rest, t, g, StreamedRecord(rel, rest, g).labels);
    }
  }

  lemma NameSnoc(rel: Relevance, ts: seq<Transition>, t: Transition, g: int, labels: Labels)
    requires labels.Keys <= {"function"} && NameShown(rel, ts, g, labels)
    ensures NameShown(rel, ts + [t], g,
      if t.goroutine == g && g in KeptIds(rel, ts + [t]) && Brings(rel, t, Name)
      then labels + map["function" := Primary(rel, t.stack)] else labels)
  {
    LastWithSnoc(rel, ts, t, g, Name);
  }

  lemma LiveSnoc(script: seq<Step>, s: Step, max: int, g: int)
    requires WellKeyed(RunLive(script, max)) && s.event.goroutine != 0 && s.event.time > 0
    requires s.stack.Some? ==> s.stack.value.goroutine == s.event.goroutine && s.stack.value.time == s.event.time
    ensures Lookup(RunLive(script + [s], max).goroutines, g).lastStack ==
      if s.event.goroutine == g && s.stack.Some? then s.stack else Lookup(RunLive(script, max).goroutines, g).lastStack
  {
    var c := RunLive(script, max);
    EventKeeps(c, max, s.event);
    var c' := ApplyEvent(c, max, s.event);
    AdvanceIgnoresStack(Lookup(c.goroutines, s.event.goroutine), s.event,
                        Lookup(c.goroutines, s.event.goroutine).lastStack);
    if s.stack.Some? {
      PastSnapshot(c', s.stack.value);
    }
  }

  /** The stack is the one taken at the last kept transition that has one. */
  ghost predicate StackShown(rel: Relevance, ts: seq<Transition>, g: int, stack: Option<Snapshot>) {
    && (NoneWith(rel, ts, g, Stack) ==> stack == None)
    && forall i :: LastWith(rel, ts, g, Stack, i) ==> stack == Some(Snapshot(ts[i].time, g, ts[i].stack))
  }

  lemma StackSnoc(rel: Relevance, ts: seq<Transition>, t: Transition, g: int, stack: Option<Snapshot>)
    requires StackShown(rel, ts, g, stack)
    ensures StackShown(rel, ts + [t], g,
      if t.goroutine == g && g in KeptIds(rel, ts + [t]) && Brings(rel, t, Stack)
      then Some(Snapshot(t.time, g, t.stack)) else stack)
  {
    LastWithSnoc(rel, ts, t, g, Stack);
  }

  lemma {:induction false} LiveStack(rel: Relevance, ts: seq<Transition>, max: int, g: int)
    requires RealTrace(ts)
    ensures StackShown(rel, ts, g, Lookup(RunLive(Script(rel, ts), max).goroutines, g).lastStack)
  {
    if ts != [] {
      var rest, t := ts[..|ts| - 1], ts[|ts| - 1];
      assert ts == rest + [t];
      RealPrefix(rest, t);
      LiveStack(rel, rest, max, g);
      var s := StepOf(rel, t, Parents(ts));
      StepKeeps(rel, t, Parents(ts));
      StepNames(rel, t, Parents(ts));
      assert t in ts;
      LiveKeyed(rel, rest, max);
      LiveSnoc(Script(rel, rest), s, max, g);
      StackSnoc(rel, rest, t, g, Lookup(RunLive(Script(rel, rest), max).goroutines, g).lastStack);
    }
  }

  lemma LiveKeyed(rel: Relevance, ts: seq<Transition>, max: int)
    requires RealTrace(ts)
    ensures WellKeyed(RunLive(Script(rel, ts), max))
  {
    ScriptIsLive(rel, ts);
    LiveEqualsBatch(Script(rel, ts), max);
    SnapshotsKeep(Run(Events(Script(rel, ts)), max), Stacks(Script(rel, ts)));
  }

  // ── What a reader of the engine sees ───────────────────────────────────────

  /** The state of its last transition, seen then, and created when it was first kept. */
  ghost predicate StandsAs(rel: Relevance, ts: seq<Transition>, g: int, r: Goroutine) {
    && (forall j :: LastTransition(ts, g, j) ==> LeftBy(ts[j], r))
    && (forall i :: FirstKept(rel, ts, g, i) ==> r.createdAt == r.bornNS == ts[i].time)
  }

  lemma StreamedStands(rel: Relevance, ts: seq<Transition>, g: int)
    requires RealTrace(ts) && g in KeptIds(rel, ts)
    ensures StandsAs(rel, ts, g, StreamedRecord(rel, ts, g))
  {
    forall j | LastTransition(ts, g, j)
      ensures LeftBy(ts[j], StreamedRecord(rel, ts, g))
    {
      StreamedLast(rel, ts, g, j);
    }
    forall i | FirstKept(rel, ts, g, i)
      ensures StreamedRecord(rel, ts, g).createdAt == StreamedRecord(rel, ts, g).bornNS == ts[i].time
    {
      StreamedFirst(rel, ts, g, i);
    }
  }

  /** After streaming a trace the engine knows exactly the kept goroutines, as their transitions left them. */
  lemma StreamMeansTrace(rel: Relevance, ts: seq<Transition>, max: int, g: int)
    requires RealTrace(ts)
    ensures var known := RunLive(Script(rel, ts), max).goroutines;
      && (g in known <==> g in KeptIds(rel, ts))
      && (g in known ==>
            && StandsAs(rel, ts, g, known[g]) && ParentShown(rel, ts, g, known[g].parent)
            && NameShown(rel, ts, g, known[g].labels) && StackShown(rel, ts, g, known[g].lastStack))
  {
    Known(rel, ts, max, g);
    LiveStack(rel, ts, max, g);
    if g in KeptIds(rel, ts) {
      StreamedStands(rel, ts, g);
      StreamedParent(rel, ts, g);
      StreamedName(rel, ts, g);
    }
  }

  /** Stacks aside, the engine's record is the one the goroutine's own events lead to. */
  lemma Known(rel: Relevance, ts: seq<Transition>, max: int, g: int)
    requires RealTrace(ts)
    ensures var known := RunLive(Script(rel, ts), max).goroutines;
      && (g in known <==> g in KeptIds(rel, ts))
      && (g in known ==> known[g] == StreamedRecord(rel, ts, g).(lastStack := known[g].lastStack))
  {
    var script := Script(rel, ts);
    ScriptIsLive(rel, ts);
    LiveEqualsBatch(script, max);
    SnapshotsKeep(Run(Events(script), max), Stacks(script));
    StreamedKept(rel, ts, g);
    if g != 0 {
      RecordsFollowLog(Events(script), max, g);
      IdAfter(Events(script), g);
    }
  }
}
