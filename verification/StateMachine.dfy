/** The per-goroutine state machine of state_machine.go and the event normalisation in front of it. */
module StateMachine {
  import opened Model
  import opened Options

  /** Go's zero record: what a map lookup yields for a goroutine not seen yet. */
  const ZERO := Goroutine(0, 0, Unset, NoReason, "", 0, 0, 0, 0, 0, false, None, map[])

  function ResolveNextState(current: Goroutine, e: Event): State {
    match e.kind
    case Create => if e.state != Unset then e.state else Runnable
    case Start => if e.state != Unset then e.state else Running
    case End => Done
    case _ => if e.state != Unset then e.state else current.state
  }

  function ElapsedNS(from: nat, to: nat): nat {
    if from == 0 || to == 0 || to <= from then 0 else to - from
  }

  predicate ContinuingWait(current: Goroutine, e: Event) {
    && IsWaitState(current.state) && current.state == ResolveNextState(current, e)
    && (e.reason == NoReason || e.reason == current.reason)
    && (e.resource == "" || e.resource == current.resource)
  }

  /** The record after an event. */
  function Next(current: Goroutine, e: Event): Goroutine {
    var seen := current.(
      id := if current.id == 0 && e.goroutine != 0 then e.goroutine else current.id,
      createdAt := if current.createdAt == 0 && e.time != 0 then e.time else current.createdAt,
      lastSeenAt := if e.time != 0 then e.time else current.lastSeenAt,
      labels := current.labels + e.labels,
      state := ResolveNextState(current, e));
    if ContinuingWait(current, e) then
      seen.(waitNS := current.waitNS + ElapsedNS(current.lastSeenAt, e.time),
            reason := if e.reason != NoReason then e.reason else current.reason,
            resource := if e.resource != "" then e.resource else current.resource)
    else if IsWaitState(seen.state) then
      seen.(waitNS := 0, reason := if e.reason != NoReason then e.reason else Unknown, resource := e.resource)
    else
      seen.(waitNS := 0, reason := NoReason, resource := "")
  }

  /** The part of Apply that does not depend on what the event says. */
  method Touch(current: Goroutine, e: Event) returns (next: Goroutine)
    ensures next == current.(
      id := if current.id == 0 && e.goroutine != 0 then e.goroutine else current.id,
      createdAt := if current.createdAt == 0 && e.time != 0 then e.time else current.createdAt,
      lastSeenAt := if e.time != 0 then e.time else current.lastSeenAt,
      labels := current.labels + e.labels)
  {
    next := current;
    if next.id == 0 && e.goroutine != 0 {
      next := next.(id := e.goroutine);
    }
    if next.createdAt == 0 && e.time != 0 {
      next := next.(createdAt := e.time);
    }
    if e.time != 0 {
      next := next.(lastSeenAt := e.time);
    }
    next := next.(labels := next.labels + e.labels);
  }

  /** Apply: the same record, its fields assigned one by one. */
  method Apply(current: Goroutine, e: Event) returns (next: Goroutine)
    ensures next == Next(current, e)
  {
    next := Touch(current, e);
    var nextState := ResolveNextState(current, e);
    var continuingWait := IsWaitState(current.state) && IsWaitState(nextState) && current.state == nextState
      && (e.reason == NoReason || e.reason == current.reason)
      && (e.resource == "" || e.resource == current.resource);
    if continuingWait {
      next := next.(waitNS := current.waitNS + ElapsedNS(current.lastSeenAt, e.time));
      if e.reason != NoReason {
        next := next.(reason := e.reason);
      }
      if e.resource != "" {
        next := next.(resource := e.resource);
      }
      next := next.(state := nextState);
      return;
    }
    next := next.(state := nextState);
    if IsWaitState(nextState) {
      next := next.(waitNS := 0);
      if e.reason != NoReason {
        next := next.(reason := e.reason);
      } else {
        next := next.(reason := Unknown);
      }
      next := next.(resource := e.resource);
      return;
    }
    next := next.(waitNS := 0, reason := NoReason, resource := "");
  }

  /** Missing fields filled in: a state event without a state waits, a wait without a reason is unknown. */
  function Normalize(e: Event): Event {
    var f := if e.kind == StateChange && e.state == Unset then e.(state := Waiting) else e;
    if IsWaitState(f.state) && f.reason == NoReason then f.(reason := Unknown) else f
  }

  /** The record the engine stores: the state machine's, with creator and lifecycle filled in. */
  function Advance(current: Goroutine, event: Event): Goroutine {
    var e := Normalize(event);
    var n := Next(current, e);
    var parent := if e.kind == Create && e.parent != 0 && n.parent == 0 then e.parent else n.parent;
    var born := if n.bornNS == 0 && n.createdAt != 0 then n.createdAt else n.bornNS;
    var died := if n.state == Done && n.diedNS == 0 && e.time != 0 then e.time else n.diedNS;
    n.(parent := parent, bornNS := born, diedNS := died, isAlive := n.state != Done)
  }

  /** A kind that opens and closes timeline segments. */
  predicate IsTimelineKind(k: Kind) {
    k.Create? || k.Start? || k.StateChange? || k.End?
  }

  predicate SameCondition(g: Goroutine, h: Goroutine) {
    g.state == h.state && g.reason == h.reason && g.resource == h.resource
  }

  /** A wait is continued exactly when nothing a segment records has changed. */
  lemma WaitContinuesIffUnchanged(current: Goroutine, event: Event)
    requires IsTimelineKind(event.kind) && IsWaitState(Advance(current, event).state)
    ensures ContinuingWait(current, Normalize(event)) <==> SameCondition(current, Advance(current, event))
  {
  }
}
