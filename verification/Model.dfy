/**
 The records of internal/model. Times are nanoseconds, 0 standing for Go's zero time;
 goroutine ids are integers, 0 standing for "none".
 */
module Model {
  import opened Options

  /** Unset is the empty string; OtherState any string without a constant of its own. */
  datatype State = Unset | Running | Runnable | Waiting | Blocked | Syscall | Done | OtherState(name: string)

  datatype Reason = NoReason | Unknown | Because(name: string)

  datatype Kind = Create | Start | StateChange | End | StackSnapshot | ResourceEdgeKind | OtherKind(name: string)

  type Labels = map<string, string>

  datatype Event = Event(time: nat, kind: Kind, goroutine: int, parent: int, state: State, reason: Reason,
                         resource: string, labels: Labels)

  datatype StackFrame = StackFrame(func: string, file: string, line: int)

  datatype Snapshot = Snapshot(time: nat, goroutine: int, frames: seq<StackFrame>)

  datatype Goroutine = Goroutine(id: int, parent: int, state: State, reason: Reason, resource: string, waitNS: nat,
                                 createdAt: nat, lastSeenAt: nat, bornNS: nat, diedNS: nat, isAlive: bool,
                                 lastStack: Option<Snapshot>, labels: Labels)

  datatype Segment = Segment(goroutine: int, start: int, end: int, state: State, reason: Reason, resource: string)

  datatype ProcessorSegment = ProcessorSegment(processor: int, goroutine: int, start: int, end: int)

  datatype ResourceEdge = ResourceEdge(from: int, to: int, resource: string)

  /** isWaitState and isBlockedState list the same three states. */
  predicate IsWaitState(s: State) {
    s.Waiting? || s.Blocked? || s.Syscall?
  }
}
