/** The timeline in terms of single events: who is covered when, and by what. */
module EngineCoverage {
  import opened Collections
  import opened EngineCore
  import opened EngineRecords
  import opened EngineTimeline
  import opened Model

  /** The goroutine's last event at or before t. */
  ghost predicate LastBy(log: seq<Event>, id: int, t: int, i: int) {
    && 0 <= i < |log| && log[i].goroutine == id && log[i].time <= t
    && forall k :: i < k < |log| && log[k].goroutine == id ==> log[k].time > t
  }

  lemma {:induction false} StateAtIsAfter(log: seq<Event>, id: int, t: int, i: int)
    requires LastBy(log, id, t, i)
    ensures StateAt(log, id, t) == After(log[..i + 1], id)
  {
    var rest, e := log[..|log| - 1], log[|log| - 1];
    if i == |log| - 1 {
      assert log[..i + 1] == log;
    } else {
      assert rest[..i + 1] == log[..i + 1];
      StateAtIsAfter(rest, id, t, i);
    }
  }

  lemma {:induction false} LogUpTo(log: seq<Event>, n: nat)
    requires TimelineLog(log) && n <= |log|
    ensures TimelineLog(log[..n])
  {
    assert forall e :: e in log[..n] ==> e in log;
  }

  ghost predicate ResourceHeld(log: seq<Event>, id: int) {
    exists j :: NamesResource(log, id, j)
  }

  /** What a goroutine's events say, the last of the log being its own: state, reason, and the resource last named. */
  ghost predicate ShowsEvents(s: Segment, log: seq<Event>, id: int)
    requires log != []
  {
    && (s.state, s.reason) == Said(log[|log| - 1])
    && (s.resource != "" <==> ResourceHeld(log, id))
    && (forall j :: NamesResource(log, id, j) ==> s.resource == log[j].resource)
  }

  lemma RecordShowsEvents(log: seq<Event>, id: int, s: Segment)
    requires TimelineLog(log) && log != [] && log[|log| - 1].goroutine == id && Shows(s, After(log, id))
    ensures ShowsEvents(s, log, id)
  {
    LastMeansLog(log, id, |log| - 1);
    forall j | NamesResource(log, id, j)
      ensures s.resource == log[j].resource != ""
    {
      ResourceMeansLog(log, id, j);
    }
    if s.resource != "" {
      ResourceFromLog(log, id);
    }
  }

  /** The record at t is the one after event i, and the last event tells how long the goroutine is ongoing. */
  lemma InstantMeans(log: seq<Event>, id: int, t: int, i: int, last: int)
    requires TimelineLog(log) && LastBy(log, id, t, i) && IsLast(log, id, last)
    ensures Ongoing(log, id, t) <==> t < log[last].time
    ensures ShouldTrack(StateAt(log, id, t).state) <==> Said(log[i]).0 != Done
  {
    StateAtIsAfter(log, id, t, i);
    LogUpTo(log, i + 1);
    LastMeansLog(log[..i + 1], id, i);
    LastMeansLog(log, id, last);
    SaidIsSet(log[i]);
    assert log[i] in log && SeenBy(log, id, t);
  }

  lemma SegmentShows(log: seq<Event>, id: int, t: int, i: int, s: Segment)
    requires TimelineLog(log) && LastBy(log, id, t, i) && Shows(s, StateAt(log, id, t))
    ensures ShowsEvents(s, log[..i + 1], id)
  {
    StateAtIsAfter(log, id, t, i);
    LogUpTo(log, i + 1);
    RecordShowsEvents(log[..i + 1], id, s);
  }

  /**
   Between its first and last event a goroutine is covered by exactly one segment if and only if its last
   event so far did not end it, and the segment shows what that event says; after its last event by none.
   */
  lemma CoveredUnlessEnded(log: seq<Event>, id: int, t: int, i: int, last: int, timeline: seq<Segment>)
    requires TimelineLog(log) && id != 0 && Lists(Run(log, 0), timeline)
    requires LastBy(log, id, t, i) && IsLast(log, id, last)
    ensures Total(Covers(id, t), timeline) == if t < log[last].time && Said(log[i]).0 != Done then 1 else 0
    ensures forall s :: s in timeline && s.goroutine == id && s.start <= t < s.end ==>
      ShowsEvents(s, log[..i + 1], id)
  {
    TimelineMeansLog(log, id, t, timeline);
    InstantMeans(log, id, t, i, last);
    forall s | s in timeline && s.goroutine == id && s.start <= t < s.end
      ensures ShowsEvents(s, log[..i + 1], id)
    {
      assert Covers(id, t)(s) == 1;
      SegmentShows(log, id, t, i, s);
    }
  }

  lemma SaidIsSet(e: Event)
    ensures Said(e).0 != Unset
  {
  }

  /** Before its first event nothing covers it. */
  lemma NotCoveredBefore(log: seq<Event>, id: int, t: int, timeline: seq<Segment>)
    requires TimelineLog(log) && id != 0 && Lists(Run(log, 0), timeline)
    requires forall k :: 0 <= k < |log| && log[k].goroutine == id ==> t < log[k].time
    ensures Total(Covers(id, t), timeline) == 0
  {
    TimelineMeansLog(log, id, t, timeline);
  }
}
