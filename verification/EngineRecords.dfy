/** What a goroutine's record says about the events it came from, field by field. */
module EngineRecords {
  import opened EngineTimeline
  import opened Model
  import opened StateMachine

  /** The state and reason an event leaves its goroutine in, whatever it was in before. */
  function Said(e: Event): (State, Reason) {
    var s :=
      if e.kind == End then Done
      else if e.state != Unset then e.state
      else if e.kind == Create then Runnable
      else if e.kind == Start then Running
      else Waiting;
    (s, if s != Waiting && s != Blocked && s != Syscall then NoReason
        else if e.reason != NoReason then e.reason else Unknown)
  }

  /** The goroutine's events among the log, from index i on, all say the same. */
  ghost predicate SameSince(log: seq<Event>, id: int, i: int, said: (State, Reason)) {
    0 <= i <= |log| && forall k :: i <= k < |log| && log[k].goroutine == id ==> Said(log[k]) == said
  }

  ghost predicate IsFirst(log: seq<Event>, id: int, i: int) {
    0 <= i < |log| && log[i].goroutine == id && forall k :: 0 <= k < i ==> log[k].goroutine != id
  }

  ghost predicate IsLast(log: seq<Event>, id: int, i: int) {
    0 <= i < |log| && log[i].goroutine == id && forall k :: i < k < |log| ==> log[k].goroutine != id
  }

  lemma NormalizedSays(g: Goroutine, e: Event)
    requires IsTimelineKind(e.kind)
    ensures ResolveNextState(g, Normalize(e)) == Said(e).0
    ensures Normalize(e).resource == e.resource
    ensures IsWaitState(Said(e).0) ==> Normalize(e).reason == Said(e).1 != NoReason
  {
  }

  /** A lifecycle event decides state and reason alone. */
  lemma LastEventDecides(g: Goroutine, e: Event)
    requires IsTimelineKind(e.kind)
    ensures (Advance(g, e).state, Advance(g, e).reason) == Said(e)
    ensures Advance(g, e).isAlive <==> Said(e).0 != Done
  {
    NormalizedSays(g, e);
  }

  /** The goroutine's first event gives the times of creation and birth, later ones keep them. */
  lemma TimesStep(g: Goroutine, e: Event)
    requires e.goroutine != 0 && e.time > 0 && (g == ZERO || (g.id == e.goroutine && 0 < g.createdAt == g.bornNS))
    ensures var n := Advance(g, e);
      && n.id == e.goroutine && n.createdAt == n.bornNS == (if g == ZERO then e.time else g.createdAt)
      && n.lastSeenAt == e.time
  {
  }

  lemma {:induction false} NotYet(log: seq<Event>, id: int)
    requires forall k :: 0 <= k < |log| ==> log[k].goroutine != id
    ensures After(log, id) == ZERO
  {
    if log != [] {
      NotYet(log[..|log| - 1], id);
    }
  }

  lemma LogSplit(log: seq<Event>)
    requires TimelineLog(log) && log != []
    ensures TimelineLog(log[..|log| - 1])
    ensures var e := log[|log| - 1]; e.goroutine != 0 && e.time > 0 && IsTimelineKind(e.kind)
  {
    LogPrefix(log);
    assert log[|log| - 1] in log;
  }

  /** A record was created and born when its goroutine was first heard of. */
  lemma {:induction false} FirstMeansLog(log: seq<Event>, id: int, first: int)
    requires TimelineLog(log) && IsFirst(log, id, first)
    ensures var g := After(log, id); g.id == id && 0 < g.createdAt == g.bornNS == log[first].time
  {
    var rest, e := log[..|log| - 1], log[|log| - 1];
    LogSplit(log);
    if first < |rest| {
      FirstMeansLog(rest, id, first);
    } else {
      NotYet(rest, id);
    }
    if e.goroutine == id {
      TimesStep(After(rest, id), e);
    }
  }

  /** Where a record stands, and since when it was last seen, is what its goroutine's last event says. */
  lemma {:induction false} LastMeansLog(log: seq<Event>, id: int, last: int)
    requires TimelineLog(log) && IsLast(log, id, last)
    ensures var g := After(log, id);
      g.lastSeenAt == log[last].time && (g.state, g.reason) == Said(log[last]) && (g.isAlive <==> g.state != Done)
  {
    var rest, e := log[..|log| - 1], log[|log| - 1];
    LogSplit(log);
    if e.goroutine == id {
      LastEventDecides(After(rest, id), e);
      AdvanceTime(After(rest, id), e);
    } else {
      LastMeansLog(rest, id, last);
    }
  }

  // ── The resource waited for ────────────────────────────────────────────────

  /** The latest of the goroutine's events from i on that name a resource, all saying the same. */
  ghost predicate NamesResource(log: seq<Event>, id: int, i: int) {
    && 0 <= i < |log| && log[i].goroutine == id && log[i].resource != "" && IsWaitState(Said(log[i]).0)
    && SameSince(log, id, i, Said(log[i]))
    && forall k :: i < k < |log| && log[k].goroutine == id ==> log[k].resource == ""
  }

  lemma ResourceStep(g: Goroutine, e: Event)
    requires IsTimelineKind(e.kind)
    ensures Advance(g, e).resource ==
      if !IsWaitState(Said(e).0) then ""
      else if e.resource != "" then e.resource
      else if (g.state, g.reason) == Said(e) then g.resource
      else ""
  {
    NormalizedSays(g, e);
  }

  /** A wait for a named resource keeps the name through later events that say the same and name none. */
  lemma {:induction false} ResourceMeansLog(log: seq<Event>, id: int, i: int)
    requires TimelineLog(log) && NamesResource(log, id, i)
    ensures After(log, id).resource == log[i].resource && (After(log, id).state, After(log, id).reason) == Said(log[i])
  {
    var rest, e := log[..|log| - 1], log[|log| - 1];
    LogSplit(log);
    if e.goroutine == id {
      LastEventDecides(After(rest, id), e);
      ResourceStep(After(rest, id), e);
    }
    if i < |rest| {
      assert NamesResource(rest, id, i);
      ResourceMeansLog(rest, id, i);
    }
  }

  /** A resource in the record is the event's, or the one held while saying the same. */
  lemma ResourceKept(g: Goroutine, e: Event)
    requires IsTimelineKind(e.kind) && Advance(g, e).resource != ""
    ensures IsWaitState(Said(e).0)
    ensures e.resource == "" ==> g.resource != "" && (g.state, g.reason) == Said(e)
  {
    ResourceStep(g, e);
  }

  /** A record has a resource only from such an event. */
  lemma {:induction false} ResourceFromLog(log: seq<Event>, id: int)
    requires TimelineLog(log) && After(log, id).resource != ""
    ensures exists i :: NamesResource(log, id, i)
  {
    var rest, e := log[..|log| - 1], log[|log| - 1];
    LogSplit(log);
    if e.goroutine == id {
      ResourceKept(After(rest, id), e);
    }
    if e.goroutine == id && e.resource != "" {
      assert NamesResource(log, id, |rest|);
    } else {
      ResourceFromLog(rest, id);
      var i :| NamesResource(rest, id, i);
      ResourceMeansLog(rest, id, i);
      StillNames(rest, e, id, i);
      assert log == rest + [e];
    }
  }

  lemma StillNames(log: seq<Event>, e: Event, id: int, i: int)
    requires NamesResource(log, id, i) && (e.goroutine == id ==> Said(e) == Said(log[i]) && e.resource == "")
    ensures NamesResource(log + [e], id, i)
  {
  }

  // ── Death ──────────────────────────────────────────────────────────────────

  predicate Dies(e: Event, id: int) {
    e.goroutine == id && Said(e).0 == Done
  }

  ghost predicate FirstDeath(log: seq<Event>, id: int, i: int) {
    0 <= i < |log| && Dies(log[i], id) && forall k :: 0 <= k < i ==> !Dies(log[k], id)
  }

  lemma DeathStep(g: Goroutine, e: Event)
    requires IsTimelineKind(e.kind) && e.time > 0
    ensures Advance(g, e).diedNS == if g.diedNS == 0 && Said(e).0 == Done then e.time else g.diedNS
  {
  }

  lemma {:induction false} NoDeath(log: seq<Event>, id: int)
    requires TimelineLog(log) && forall k :: 0 <= k < |log| ==> !Dies(log[k], id)
    ensures After(log, id).diedNS == 0
  {
    if log != [] {
      var rest, e := log[..|log| - 1], log[|log| - 1];
      LogSplit(log);
      NoDeath(rest, id);
      if e.goroutine == id {
        DeathStep(After(rest, id), e);
      }
    }
  }

  /** The time of death is that of the first event that ends the goroutine, and 0 while there is none. */
  lemma {:induction false} DeathMeansLog(log: seq<Event>, id: int, i: int)
    requires TimelineLog(log) && FirstDeath(log, id, i)
    ensures After(log, id).diedNS == log[i].time > 0
  {
    var rest, e := log[..|log| - 1], log[|log| - 1];
    LogSplit(log);
    if i < |rest| {
      DeathMeansLog(rest, id, i);
    } else {
      NoDeath(rest, id);
    }
    if e.goroutine == id {
      DeathStep(After(rest, id), e);
    }
  }

  // ── Parent and labels ──────────────────────────────────────────────────────

  predicate NamesParent(e: Event, id: int) {
    e.goroutine == id && e.kind == Create && e.parent != 0
  }

  lemma ParentStep(g: Goroutine, e: Event, id: int)
    requires e.goroutine == id
    ensures Advance(g, e).parent == if g.parent == 0 && NamesParent(e, id) then e.parent else g.parent
  {
  }

  /** The parent is that of the first creation that names one, and 0 while there is none. */
  lemma {:induction false} ParentMeansLog(log: seq<Event>, id: int)
    ensures (forall k :: 0 <= k < |log| ==> !NamesParent(log[k], id)) ==> After(log, id).parent == 0
    ensures forall i ::
      0 <= i < |log| && NamesParent(log[i], id) && (forall k :: 0 <= k < i ==> !NamesParent(log[k], id)) ==>
        After(log, id).parent == log[i].parent
  {
    if log != [] {
      var rest, e := log[..|log| - 1], log[|log| - 1];
      ParentMeansLog(rest, id);
      if e.goroutine == id {
        ParentStep(After(rest, id), e, id);
      }
      assert forall k :: 0 <= k < |rest| ==> rest[k] == log[k];
    }
  }

  /** The last of the goroutine's events to carry a label, if any, decides its value. */
  ghost predicate LastToCarry(log: seq<Event>, id: int, key: string, i: int) {
    && 0 <= i < |log| && log[i].goroutine == id && key in log[i].labels
    && forall k :: i < k < |log| && log[k].goroutine == id ==> key !in log[k].labels
  }

  lemma LabelsStep(g: Goroutine, e: Event)
    ensures Advance(g, e).labels == g.labels + e.labels
  {
  }

  lemma {:induction false} LabelsMeanLog(log: seq<Event>, id: int, key: string)
    ensures key in After(log, id).labels <==> exists i :: LastToCarry(log, id, key, i)
    ensures forall i :: LastToCarry(log, id, key, i) ==> After(log, id).labels[key] == log[i].labels[key]
  {
    if log != [] {
      var rest, e := log[..|log| - 1], log[|log| - 1];
      LabelsMeanLog(rest, id, key);
      if e.goroutine == id {
        LabelsStep(After(rest, id), e);
      }
      if e.goroutine == id && key in e.labels {
        assert LastToCarry(log, id, key, |rest|);
      } else {
        assert forall i :: 0 <= i < |rest| ==> (LastToCarry(log, id, key, i) <==> LastToCarry(rest, id, key, i));
      }
    }
  }
}
