/** What the engine keeps of a run: the goroutine records, the closed segments and the open ones. */
module EngineCore {
  import opened Model
  import opened Options
  import opened StateMachine

  datatype Active = Active(start: nat, state: State, reason: Reason, resource: string)

  datatype Core = Core(goroutines: map<int, Goroutine>, closed: seq<Segment>, active: map<int, Active>)

  const EMPTY := Core(map[], [], map[])

  function Lookup(goroutines: map<int, Goroutine>, id: int): Goroutine {
    if id in goroutines then goroutines[id] else ZERO
  }

  predicate ShouldTrack(s: State) {
    s != Unset && s != Done
  }

  predicate Matches(a: Active, g: Goroutine) {
    a.state == g.state && a.reason == g.reason && a.resource == g.resource
  }

  function BuildSegment(id: int, a: Active, end: nat): Option<Segment> {
    if a.start == 0 || end == 0 || end <= a.start then None
    else Some(Segment(id, a.start, end, a.state, a.reason, a.resource))
  }

  /** The open segment of a goroutine after an event, and the segment the event closes. */
  function Switch(id: int, open: Option<Active>, current: Goroutine, next: Goroutine,
                  e: Event): (Option<Active>, Option<Segment>)
  {
    if !IsTimelineKind(e.kind) || e.time == 0 then (open, None)
    else
      var closes := open.Some? && Matches(open.value, current) && !SameCondition(current, next);
      var closed := if closes then BuildSegment(id, open.value, e.time) else None;
      if open.Some? && !closes then (open, None)
      else if !ShouldTrack(next.state) then (None, closed)
      else (Some(Active(e.time, next.state, next.reason, next.resource)), closed)
  }

  /** Eviction of the oldest closed segments, once they are over the cap by more than a tenth. */
  function Trim(closed: seq<Segment>, max: int): seq<Segment> {
    if max <= 0 || |closed| <= max + max / 10 then closed else closed[|closed| - max..]
  }

  function OpenOf(active: map<int, Active>, id: int): Option<Active> {
    if id in active then Some(active[id]) else None
  }

  /** What an event makes of its goroutine: record, open segment, segments closed. */
  function Effect(c: Core, e: Event): (Goroutine, Option<Active>, seq<Segment>) {
    var current := Lookup(c.goroutines, e.goroutine);
    var next := Advance(current, e);
    var (open, segment) := Switch(e.goroutine, OpenOf(c.active, e.goroutine), current, next, e);
    (next, open, if segment.Some? then [segment.value] else [])
  }

  function ApplyEvent(c: Core, max: int, e: Event): Core {
    if e.goroutine == 0 then c
    else
      var (next, open, closing) := Effect(c, e);
      Core(c.goroutines[next.id := next],
           Trim(c.closed + closing, max),
           if open.Some? then c.active[e.goroutine := open.value] else c.active - {e.goroutine})
  }

  /** The engine after a run of events from a reset. */
  function Run(log: seq<Event>, max: int): Core {
    if log == [] then EMPTY else ApplyEvent(Run(log[..|log| - 1], max), max, log[|log| - 1])
  }

  // ── The timeline of a state ────────────────────────────────────────────────

  /** The open segment of a goroutine, cut off where it was last seen. */
  function Derived(c: Core, id: int): Option<Segment> {
    if id in c.active && id in c.goroutines then BuildSegment(id, c.active[id], c.goroutines[id].lastSeenAt) else None
  }

  ghost function DerivedSet(c: Core): set<Segment> {
    set id | id in c.active && Derived(c, id).Some? :: Derived(c, id).value
  }

  /** segs lists the closed segments and the derived ones, in any order. */
  ghost predicate Lists(c: Core, segs: seq<Segment>) {
    multiset(segs) == multiset(c.closed) + multiset(DerivedSet(c))
  }
}
