/** Wait-for edges, and the deadlock hints read off their cycles. */
module Deadlock {
  import opened Collections
  import opened CycleKeys
  import opened CycleSearch
  import opened Graph
  import opened Model

  // ── Edges ──────────────────────────────────────────────────────────────────

  /** The adjacency map of an edge list; graph.go skips edges to nobody, watch.go does not. */
  function AdjacencyOf(edges: seq<ResourceEdge>, skipNobody: bool): Adjacency {
    if edges == [] then map[]
    else
      var adj, e := AdjacencyOf(edges[..|edges| - 1], skipNobody), edges[|edges| - 1];
      if skipNobody && e.to == 0 then adj else adj[e.from := Successors(adj, e.from) + [e.to]]
  }

  lemma {:induction false} AdjacencyMeans(edges: seq<ResourceEdge>, skipNobody: bool, a: int, b: int)
    ensures HasEdge(AdjacencyOf(edges, skipNobody), a, b)
       <==> (exists e :: e in edges && e.from == a && e.to == b) && !(skipNobody && b == 0)
  {
    if edges != [] {
      var before, last := edges[..|edges| - 1], edges[|edges| - 1];
      AdjacencyMeans(before, skipNobody, a, b);
      assert edges == before + [last];
      assert forall e :: e in edges <==> e in before || e == last;
    }
  }

  method BuildAdjacency(edges: seq<ResourceEdge>, skipNobody: bool) returns (adj: Adjacency)
    ensures adj == AdjacencyOf(edges, skipNobody)
  {
    adj := map[];
    for i := 0 to |edges|
      invariant adj == AdjacencyOf(edges[..i], skipNobody)
    {
      assert edges[..i + 1][..i] == edges[..i];
      var e := edges[i];
      if !(skipNobody && e.to == 0) {
        adj := adj[e.from := Successors(adj, e.from) + [e.to]];
      }
    }
    assert edges[..|edges|] == edges;
  }

  /** hasDeadlockCycle on an edge list: is a cycle reachable from a listed goroutine? */
  method HasDeadlock(edges: seq<ResourceEdge>, goroutines: seq<Goroutine>) returns (found: bool)
    ensures found <==> exists g :: g in goroutines && ReachesCycle(AdjacencyOf(edges, false), g.id)
  {
    var adj := BuildAdjacency(edges, false);
    var ids := seq(|goroutines|, i requires 0 <= i < |goroutines| => goroutines[i].id);
    found := HasDeadlockCycle(adj, ids);
    if found {
      ghost var r :| r in ids && ReachesCycle(adj, r);
      ghost var k :| 0 <= k < |ids| && ids[k] == r;
      assert goroutines[k] in goroutines;
    } else {
      forall g | g in goroutines
        ensures !ReachesCycle(adj, g.id)
      {
        ghost var k :| 0 <= k < |goroutines| && goroutines[k] == g;
        assert ids[k] in ids;
      }
    }
  }

  // ── Who is blocked ─────────────────────────────────────────────────────────

  /** The last record of an id decides. */
  function BlockedIds(goroutines: seq<Goroutine>): set<int> {
    if goroutines == [] then {}
    else
      var before, g := BlockedIds(goroutines[..|goroutines| - 1]), goroutines[|goroutines| - 1];
      if IsWaitState(g.state) then before + {g.id} else before - {g.id}
  }

  /** The goroutine's last record is of a waiting state. */
  ghost predicate LastWaits(goroutines: seq<Goroutine>, id: int, i: int) {
    && 0 <= i < |goroutines| && goroutines[i].id == id
    && (goroutines[i].state == Waiting || goroutines[i].state == Blocked || goroutines[i].state == Syscall)
    && forall k :: i < k < |goroutines| ==> goroutines[k].id != id
  }

  lemma {:induction false} LastRecordDecides(goroutines: seq<Goroutine>, id: int)
    ensures id in BlockedIds(goroutines) <==> exists i :: LastWaits(goroutines, id, i)
  {
    if goroutines != [] {
      var rest, g := goroutines[..|goroutines| - 1], goroutines[|goroutines| - 1];
      LastRecordDecides(rest, id);
      if g.id == id {
        assert IsWaitState(g.state) ==> LastWaits(goroutines, id, |rest|);
      } else {
        assert forall i :: 0 <= i < |rest| ==> (LastWaits(goroutines, id, i) <==> LastWaits(rest, id, i));
      }
    }
  }

  ghost predicate DistinctIds(goroutines: seq<Goroutine>) {
    forall i, j :: 0 <= i < j < |goroutines| ==> goroutines[i].id != goroutines[j].id
  }

  lemma {:induction false} BlockedMeans(goroutines: seq<Goroutine>, id: int)
    requires DistinctIds(goroutines)
    ensures id in BlockedIds(goroutines) <==> exists g :: g in goroutines && g.id == id && IsWaitState(g.state)
  {
    if goroutines != [] {
      var before, last := goroutines[..|goroutines| - 1], goroutines[|goroutines| - 1];
      BlockedMeans(before, id);
      assert goroutines == before + [last];
      assert forall g :: g in goroutines <==> g in before || g == last;
      assert forall g :: g in before ==> g.id != last.id;
    }
  }

  // ── Hints ──────────────────────────────────────────────────────────────────

  /** A cycle worth a hint: two or more goroutines, all blocked. */
  ghost predicate Deadlocked(cycle: seq<int>, blocked: set<int>) {
    |cycle| >= 2 && forall x :: x in cycle ==> x in blocked
  }

  ghost predicate GoodHint(adj: Adjacency, blocked: set<int>, h: seq<int>) {
    Cycle(adj, h) && NoRepeats(h) && Deadlocked(h, blocked)
  }

  /** The cycle the search from a node returns, empty for none. */
  ghost function Found(adj: Adjacency, id: int): seq<int> {
    FindCycle(adj, id, [])
  }

  ghost function KeysFrom(adj: Adjacency, searched: set<int>): set<string> {
    set id | id in searched && |Found(adj, id)| >= 2 :: Key(Found(adj, id))
  }

  /** What has been reported after searching from some of the nodes. */
  ghost predicate Reported(adj: Adjacency, blocked: set<int>, searched: set<int>, seen: set<string>,
                           hints: seq<seq<int>>)
  {
    && seen == KeysFrom(adj, searched) && FromSearches(adj, searched, hints)
    && GoodHints(adj, blocked, seen, hints)
    && Answered(adj, blocked, searched, hints)
  }

  ghost predicate GoodHints(adj: Adjacency, blocked: set<int>, seen: set<string>, hints: seq<seq<int>>) {
    (forall h :: h in hints ==> GoodHint(adj, blocked, h) && Key(h) in seen) && DistinctKeys(hints)
  }

  /** Every hint is what the search from one of the nodes returned. */
  ghost predicate FromSearches(adj: Adjacency, searched: set<int>, hints: seq<seq<int>>) {
    forall h :: h in hints ==> exists id :: id in searched && h == Found(adj, id)
  }

  ghost predicate Answered(adj: Adjacency, blocked: set<int>, searched: set<int>, hints: seq<seq<int>>) {
    forall id :: id in searched && Deadlocked(Found(adj, id), blocked) ==> HasHint(hints, Key(Found(adj, id)))
  }

  ghost predicate DistinctKeys(hints: seq<seq<int>>) {
    forall i, j :: 0 <= i < j < |hints| ==> Key(hints[i]) != Key(hints[j])
  }

  /** Some hint has this key. */
  ghost predicate HasHint(hints: seq<seq<int>>, key: string) {
    exists h :: h in hints && Key(h) == key
  }

  /** The search from some node returns a cycle worth a hint. */
  ghost predicate Hinted(adj: Adjacency, blocked: set<int>) {
    exists id :: id in adj && Deadlocked(Found(adj, id), blocked)
  }

  /** Every cycle worth a hint that a search returns has a hint that is a rotation of it. */
  ghost predicate NoneMissing(adj: Adjacency, blocked: set<int>, hints: seq<seq<int>>) {
    forall id :: id in adj && Deadlocked(Found(adj, id), blocked) ==> HasTwin(hints, Found(adj, id))
  }

  ghost predicate HasTwin(hints: seq<seq<int>>, c: seq<int>) {
    exists h :: h in hints && Rotation(c, h)
  }

  /** No two hints are one cycle entered at different nodes. */
  ghost predicate NoTwins(hints: seq<seq<int>>) {
    forall i, j :: 0 <= i < j < |hints| ==> !Rotation(hints[i], hints[j])
  }

  /** The hints are cycles that searches return, simple, of at least two goroutines and all blocked, each once. */
  method FindDeadlockHints(edges: seq<ResourceEdge>, goroutines: seq<Goroutine>) returns (hints: seq<seq<int>>)
    ensures var adj, blocked := AdjacencyOf(edges, true), BlockedIds(goroutines);
      && (forall h :: h in hints ==> GoodHint(adj, blocked, h)) && FromSearches(adj, adj.Keys, hints)
      && NoTwins(hints) && NoneMissing(adj, blocked, hints) && (hints != [] <==> Hinted(adj, blocked))
  {
    var blocked := BlockedSet(goroutines);
    var adj := BuildAdjacency(edges, true);
    ghost var seen;
    hints, seen := SearchAll(adj, blocked);
    HintsComplete(adj, blocked, seen, hints);
  }

  method BlockedSet(goroutines: seq<Goroutine>) returns (blocked: set<int>)
    ensures blocked == BlockedIds(goroutines)
  {
    blocked := {};
    for i := 0 to |goroutines|
      invariant blocked == BlockedIds(goroutines[..i])
    {
      assert goroutines[..i + 1][..i] == goroutines[..i];
      var id := goroutines[i].id;
      blocked := if IsWaitState(goroutines[i].state) then blocked + {id} else blocked - {id};
    }
    assert goroutines[..|goroutines|] == goroutines;
  }

  /** A search from every node. */
  method SearchAll(adj: Adjacency, blocked: set<int>) returns (hints: seq<seq<int>>, ghost seenKeys: set<string>)
    ensures Reported(adj, blocked, adj.Keys, seenKeys, hints)
  {
    var seen: set<string> := {};
    hints := [];
    var left := adj.Keys;
    while left != {}
      invariant left <= adj.Keys && Reported(adj, blocked, adj.Keys - left, seen, hints)
      decreases left
    {
      var id := Pick(left);
      ghost var searched := adj.Keys - left;
      seen, hints := SearchFrom(id, adj, blocked, searched, seen, hints);
      left := left - {id};
      assert adj.Keys - left == searched + {id};
    }
    assert adj.Keys - {} == adj.Keys;
    seenKeys := seen;
  }

  /** One iteration: search, drop what was seen, report what is blocked. */
  method SearchFrom(id: int, adj: Adjacency, blocked: set<int>, ghost searched: set<int>, seen0: set<string>,
                    hints0: seq<seq<int>>)
    returns (seen: set<string>, hints: seq<seq<int>>)
    requires Reported(adj, blocked, searched, seen0, hints0)
    ensures Reported(adj, blocked, searched + {id}, seen, hints)
  {
    seen, hints := seen0, hints0;
    var inPath := new Marks();
    var cycle := FindCycleFrom(id, [], adj, inPath);
    if |cycle| >= 2 {
      var key := CycleKey(cycle);
      if key in seen {
        SeenBefore(adj, blocked, searched, seen, hints, id);
      } else {
        NewCycle(adj, blocked, searched, seen, hints, id);
        seen := seen + {key};
        if forall x :: x in cycle ==> x in blocked {
          hints := hints + [cycle];
        }
      }
    } else {
      NoCycle(adj, blocked, searched, seen, hints, id);
    }
  }

  lemma MoreSearched(adj: Adjacency, searched: set<int>, hints: seq<seq<int>>, id: int)
    requires FromSearches(adj, searched, hints)
    ensures FromSearches(adj, searched + {id}, hints) && FromSearches(adj, searched + {id}, hints + [Found(adj, id)])
  {
    assert id in searched + {id};
    forall h | h in hints + [Found(adj, id)]
      ensures exists x :: x in searched + {id} && h == Found(adj, x)
    {
      if h in hints {
        var x :| x in searched && h == Found(adj, x);
        assert x in searched + {id};
      }
    }
  }

  lemma NoCycle(adj: Adjacency, blocked: set<int>, searched: set<int>, seen: set<string>, hints: seq<seq<int>>, id: int)
    requires Reported(adj, blocked, searched, seen, hints) && |Found(adj, id)| < 2
    ensures Reported(adj, blocked, searched + {id}, seen, hints)
  {
    MoreSearched(adj, searched, hints, id);
  }

  lemma NewCycle(adj: Adjacency, blocked: set<int>, searched: set<int>, seen: set<string>, hints: seq<seq<int>>,
                 id: int)
    requires Reported(adj, blocked, searched, seen, hints)
    requires |Found(adj, id)| >= 2 && Key(Found(adj, id)) !in seen
    ensures Reported(adj, blocked, searched + {id}, seen + {Key(Found(adj, id))},
                     if Deadlocked(Found(adj, id), blocked) then hints + [Found(adj, id)] else hints)
  {
    OneMoreKey(adj, searched, id);
    MoreSearched(adj, searched, hints, id);
    FindCycleExact(adj, id);
    AddGoodHint(adj, blocked, seen, hints, Found(adj, id));
    StillAnswered(adj, blocked, searched, hints,
                  if Deadlocked(Found(adj, id), blocked) then hints + [Found(adj, id)] else hints, id);
  }

  lemma StillAnswered(adj: Adjacency, blocked: set<int>, searched: set<int>, before: seq<seq<int>>,
                      after: seq<seq<int>>, id: int)
    requires Answered(adj, blocked, searched, before)
    requires forall key :: HasHint(before, key) ==> HasHint(after, key)
    requires Deadlocked(Found(adj, id), blocked) ==> HasHint(after, Key(Found(adj, id)))
    ensures Answered(adj, blocked, searched + {id}, after)
  {
  }

  lemma AddGoodHint(adj: Adjacency, blocked: set<int>, seen: set<string>, hints: seq<seq<int>>, c: seq<int>)
    requires GoodHints(adj, blocked, seen, hints) && Cycle(adj, c) && NoRepeats(c) && Key(c) !in seen
    ensures var after := if Deadlocked(c, blocked) then hints + [c] else hints;
      && GoodHints(adj, blocked, seen + {Key(c)}, after)
      && (Deadlocked(c, blocked) ==> HasHint(after, Key(c)))
      && forall key :: HasHint(hints, key) ==> HasHint(after, key)
  {
    AddHint(hints, c);
  }

  lemma AddHint(hints: seq<seq<int>>, c: seq<int>)
    requires DistinctKeys(hints) && forall h :: h in hints ==> Key(h) != Key(c)
    ensures DistinctKeys(hints + [c]) && HasHint(hints + [c], Key(c))
    ensures forall key :: HasHint(hints, key) ==> HasHint(hints + [c], key)
    ensures forall h :: h in hints + [c] <==> h in hints || h == c
  {
  }

  lemma OneMoreKey(adj: Adjacency, searched: set<int>, id: int)
    ensures KeysFrom(adj, searched + {id})
         == KeysFrom(adj, searched) + (if |Found(adj, id)| >= 2 then {Key(Found(adj, id))} else {})
  {
  }

  lemma SeenBefore(adj: Adjacency, blocked: set<int>, searched: set<int>, seen: set<string>, hints: seq<seq<int>>,
                   id: int)
    requires Reported(adj, blocked, searched, seen, hints)
    requires |Found(adj, id)| >= 2 && Key(Found(adj, id)) in seen
    ensures Reported(adj, blocked, searched + {id}, seen, hints)
  {
    OneMoreKey(adj, searched, id);
    MoreSearched(adj, searched, hints, id);
    var other :| other in searched && |Found(adj, other)| >= 2 && Key(Found(adj, other)) == Key(Found(adj, id));
    SameVerdict(adj, blocked, id, other);
    assert seen + {Key(Found(adj, id))} == seen;
  }

  lemma SameVerdict(adj: Adjacency, blocked: set<int>, id: int, other: int)
    requires Found(adj, id) != [] && Found(adj, other) != [] && Key(Found(adj, id)) == Key(Found(adj, other))
    ensures Deadlocked(Found(adj, id), blocked) <==> Deadlocked(Found(adj, other), blocked)
  {
    FindCycleExact(adj, id);
    FindCycleExact(adj, other);
    SameKeyIffRotation(Found(adj, id), Found(adj, other));
    RotationSameNodes(Found(adj, id), Found(adj, other));
  }

  lemma DistinctKeysNoTwins(adj: Adjacency, blocked: set<int>, hints: seq<seq<int>>)
    requires DistinctKeys(hints) && forall h :: h in hints ==> GoodHint(adj, blocked, h)
    ensures NoTwins(hints)
  {
    forall i, j | 0 <= i < j < |hints|
      ensures !Rotation(hints[i], hints[j])
    {
      assert hints[i] in hints && hints[j] in hints;
      SameKeyIffRotation(hints[i], hints[j]);
    }
  }

  lemma AnsweredHasTwin(adj: Adjacency, blocked: set<int>, hints: seq<seq<int>>, id: int)
    requires HasHint(hints, Key(Found(adj, id))) && Found(adj, id) != []
    requires forall h :: h in hints ==> GoodHint(adj, blocked, h)
    ensures HasTwin(hints, Found(adj, id))
  {
    var h :| h in hints && Key(h) == Key(Found(adj, id));
    FindCycleExact(adj, id);
    SameKeyIffRotation(Found(adj, id), h);
  }

  lemma NonEmptyIffHinted(adj: Adjacency, blocked: set<int>, hints: seq<seq<int>>)
    requires FromSearches(adj, adj.Keys, hints) && NoneMissing(adj, blocked, hints)
    requires forall h :: h in hints ==> GoodHint(adj, blocked, h)
    ensures hints != [] <==> Hinted(adj, blocked)
  {
    if hints != [] {
      assert hints[0] in hints;
    }
  }

  /** The hints answer for the cycles the search returns. */
  lemma HintsComplete(adj: Adjacency, blocked: set<int>, seen: set<string>, hints: seq<seq<int>>)
    requires Reported(adj, blocked, adj.Keys, seen, hints)
    ensures NoTwins(hints) && NoneMissing(adj, blocked, hints)
    ensures hints != [] <==> Hinted(adj, blocked)
  {
    DistinctKeysNoTwins(adj, blocked, hints);
    forall id | id in adj && Deadlocked(Found(adj, id), blocked)
      ensures HasTwin(hints, Found(adj, id))
    {
      AnsweredHasTwin(adj, blocked, hints, id);
    }
    NonEmptyIffHinted(adj, blocked, hints);
  }

  // ── When the hints miss nothing ────────────────────────────────────────────

  /** No goroutine waits for itself and everyone who waits or is waited for is blocked. */
  ghost predicate AllBlocked(adj: Adjacency, blocked: set<int>) {
    forall a, b :: HasEdge(adj, a, b) ==> a != b && a in blocked && b in blocked
  }

  /** Then there is a cycle to report exactly when the graph has one. */
  lemma CyclesFound(adj: Adjacency, blocked: set<int>)
    requires AllBlocked(adj, blocked)
    ensures (exists c :: Cycle(adj, c)) <==> Hinted(adj, blocked)
  {
    forall c | Cycle(adj, c)
      ensures c[0] in adj && Deadlocked(Found(adj, c[0]), blocked)
    {
      CycleStarts(adj, c);
      assert Walk(adj, [c[0]]);
      FindCycleExact(adj, c[0]);
      CycleBlocked(adj, blocked, Found(adj, c[0]));
    }
    forall id | id in adj && Deadlocked(Found(adj, id), blocked)
      ensures Cycle(adj, Found(adj, id))
    {
      FindCycleExact(adj, id);
    }
  }

  lemma CycleStarts(adj: Adjacency, c: seq<int>)
    requires Cycle(adj, c)
    ensures c[0] in adj
  {
    assert HasEdge(adj, c[0], if |c| == 1 then c[0] else c[1]);
  }

  lemma CycleBlocked(adj: Adjacency, blocked: set<int>, c: seq<int>)
    requires AllBlocked(adj, blocked) && Cycle(adj, c)
    ensures Deadlocked(c, blocked)
  {
    forall i | 0 <= i < |c|
      ensures c[i] in blocked
    {
      assert HasEdge(adj, c[i], if i + 1 < |c| then c[i + 1] else c[0]);
    }
    assert HasEdge(adj, c[|c| - 1], c[0]);
  }

  // ── Contention edges ───────────────────────────────────────────────────────

  /** The goroutine is blocked on the resource. */
  predicate Contends(g: Goroutine, resource: string) {
    g.resource != "" && g.resource == resource && IsWaitState(g.state)
  }

  ghost function Contenders(goroutines: seq<Goroutine>, resource: string): seq<int> {
    if goroutines == [] then []
    else
      var g := goroutines[|goroutines| - 1];
      Contenders(goroutines[..|goroutines| - 1], resource) + (if Contends(g, resource) then [g.id] else [])
  }

  /** Some two positions of ids hold a and b. */
  ghost predicate ContendingPair(ids: seq<int>, a: int, b: int) {
    exists i, j :: 0 <= i < |ids| && 0 <= j < |ids| && i != j && ids[i] == a && ids[j] == b
  }

  /** Both directions of every pair that contends for one resource. */
  method DeriveCurrentContentionEdges(goroutines: seq<Goroutine>) returns (edges: seq<ResourceEdge>)
    ensures forall e :: e in edges <==> ContendingPair(Contenders(goroutines, e.resource), e.from, e.to)
  {
    var byResource := GroupContenders(goroutines);
    edges := [];
    var left := byResource.Keys;
    while left != {}
      invariant left <= byResource.Keys
      invariant forall e :: e in edges <==>
        e.resource in byResource && e.resource !in left && ContendingPair(byResource[e.resource], e.from, e.to)
      decreases left
    {
      var r := Pick(left);
      left := left - {r};
      var more := PairEdges(byResource[r], r);
      edges := edges + more;
    }
  }

  method GroupContenders(goroutines: seq<Goroutine>) returns (byResource: map<string, seq<int>>)
    ensures forall r :: (if r in byResource then byResource[r] else []) == Contenders(goroutines, r)
  {
    byResource := map[];
    for k := 0 to |goroutines|
      invariant forall r :: (if r in byResource then byResource[r] else []) == Contenders(goroutines[..k], r)
    {
      assert goroutines[..k + 1][..k] == goroutines[..k];
      var g := goroutines[k];
      if g.resource != "" && IsWaitState(g.state) {
        var ids := if g.resource in byResource then byResource[g.resource] else [];
        byResource := byResource[g.resource := ids + [g.id]];
      }
    }
    assert goroutines[..|goroutines|] == goroutines;
  }

  method PairEdges(ids: seq<int>, resource: string) returns (edges: seq<ResourceEdge>)
    ensures forall e :: e in edges <==> e.resource == resource && ContendingPair(ids, e.from, e.to)
  {
    edges := [];
    for i := 0 to |ids|
      invariant forall e :: e in edges <==> e.resource == resource && PairBefore(ids, e.from, e.to, i, 0)
    {
      for j := i + 1 to |ids|
        invariant forall e :: e in edges <==> e.resource == resource && PairBefore(ids, e.from, e.to, i, j)
      {
        NextPair(ids, i, j);
        edges := edges + [ResourceEdge(ids[i], ids[j], resource)] + [ResourceEdge(ids[j], ids[i], resource)];
      }
    }
  }

  /** A pair whose positions i' < j' come before i, j in the double loop, in either direction. */
  ghost predicate PairBefore(ids: seq<int>, a: int, b: int, i: int, j: int) {
    exists k, l ::
      && 0 <= k < l < |ids| && (k < i || (k == i && l < j))
      && ((ids[k] == a && ids[l] == b) || (ids[k] == b && ids[l] == a))
  }

  lemma NextPair(ids: seq<int>, i: nat, j: nat)
    requires i < j < |ids|
    ensures forall a, b :: PairBefore(ids, a, b, i, j + 1) <==>
      PairBefore(ids, a, b, i, j) || (a == ids[i] && b == ids[j]) || (a == ids[j] && b == ids[i])
  {
    forall a, b
      ensures PairBefore(ids, a, b, i, j + 1) <==>
        PairBefore(ids, a, b, i, j) || (a == ids[i] && b == ids[j]) || (a == ids[j] && b == ids[i])
    {
      if PairBefore(ids, a, b, i, j + 1) {
        var k, l :| 0 <= k < l < |ids| && (k < i || (k == i && l < j + 1))
          && ((ids[k] == a && ids[l] == b) || (ids[k] == b && ids[l] == a));
        assert l == j || k < i || l < j;
      }
    }
  }

  lemma {:induction false} ContendersMean(goroutines: seq<Goroutine>, r: string)
    requires DistinctIds(goroutines)
    ensures NoRepeats(Contenders(goroutines, r))
    ensures forall x :: x in Contenders(goroutines, r) <==> exists g :: g in goroutines && g.id == x && Contends(g, r)
  {
    if goroutines != [] {
      var before, last := goroutines[..|goroutines| - 1], goroutines[|goroutines| - 1];
      ContendersMean(before, r);
      assert goroutines == before + [last];
      assert forall g :: g in goroutines <==> g in before || g == last;
      assert forall g :: g in before ==> g.id != last.id;
      assert last.id !in Contenders(before, r);
    }
  }

  /** Two goroutines are blocked on one resource. */
  ghost predicate SharedResource(goroutines: seq<Goroutine>) {
    exists g, h :: g in goroutines && h in goroutines && g != h && WaitsOnResource(g) && WaitsOnResource(h)
                && g.resource == h.resource
  }

  predicate WaitsOnResource(g: Goroutine) {
    g.resource != "" && (g.state == Waiting || g.state == Blocked || g.state == Syscall)
  }

  /** On contention edges the hints say deadlock exactly when two blocked goroutines share a resource. */
  lemma ContentionHints(goroutines: seq<Goroutine>, edges: seq<ResourceEdge>)
    requires DistinctIds(goroutines) && forall g :: g in goroutines ==> g.id != 0
    requires forall e :: e in edges <==> ContendingPair(Contenders(goroutines, e.resource), e.from, e.to)
    ensures var adj, blocked := AdjacencyOf(edges, true), BlockedIds(goroutines);
      Hinted(adj, blocked) <==> SharedResource(goroutines)
  {
    var adj, blocked := AdjacencyOf(edges, true), BlockedIds(goroutines);
    forall a, b | HasEdge(adj, a, b)
      ensures a != b && a in blocked && b in blocked && SharedResource(goroutines)
    {
      AdjacencyMeans(edges, true, a, b);
      var e :| e in edges && e.from == a && e.to == b;
      PairContends(goroutines, e.resource, a, b);
    }
    CyclesFound(adj, blocked);
    if SharedResource(goroutines) {
      var g, h :| g in goroutines && h in goroutines && g != h && WaitsOnResource(g) && WaitsOnResource(h)
               && g.resource == h.resource;
      var r := g.resource;
      ContendersPair(goroutines, g, h, r);
      AdjacencyMeans(edges, true, g.id, h.id);
      AdjacencyMeans(edges, true, h.id, g.id);
      assert ResourceEdge(g.id, h.id, r) in edges && ResourceEdge(h.id, g.id, r) in edges;
      assert Cycle(adj, [g.id, h.id]);
    }
    if exists c :: Cycle(adj, c) {
      var c :| Cycle(adj, c);
      assert HasEdge(adj, c[|c| - 1], c[0]);
    }
  }

  lemma PairContends(goroutines: seq<Goroutine>, r: string, a: int, b: int)
    requires DistinctIds(goroutines) && ContendingPair(Contenders(goroutines, r), a, b)
    ensures a != b && a in BlockedIds(goroutines) && b in BlockedIds(goroutines) && SharedResource(goroutines)
  {
    ContendersMean(goroutines, r);
    BlockedMeans(goroutines, a);
    BlockedMeans(goroutines, b);
    var ids := Contenders(goroutines, r);
    assert a in ids && b in ids;
    var g :| g in goroutines && g.id == a && Contends(g, r);
    var h :| h in goroutines && h.id == b && Contends(h, r);
    assert a != b && g != h;
  }

  lemma ContendersPair(goroutines: seq<Goroutine>, g: Goroutine, h: Goroutine, r: string)
    requires DistinctIds(goroutines) && g in goroutines && h in goroutines && g != h && Contends(g, r) && Contends(h, r)
    ensures ContendingPair(Contenders(goroutines, r), g.id, h.id)
    ensures ContendingPair(Contenders(goroutines, r), h.id, g.id)
  {
    ContendersMean(goroutines, r);
    var i :| 0 <= i < |goroutines| && goroutines[i] == g;
    var j :| 0 <= j < |goroutines| && goroutines[j] == h;
    assert g.id != h.id;
    var ids := Contenders(goroutines, r);
    assert g.id in ids && h.id in ids;
  }
}
