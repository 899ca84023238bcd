/** When the deadlock hints depend on the order of the edges, and when they do not. */
module DeadlockOrders {
  import opened Collections
  import opened CycleSearch
  import opened Deadlock
  import opened Graph
  import opened Model
  import opened StateMachine

  // ── Walks ──────────────────────────────────────────────────────────────────

  ghost predicate WalkTo(adj: Adjacency, x: int, y: int, w: seq<int>) {
    Walk(adj, w) && w[0] == x && w[|w| - 1] == y
  }

  ghost predicate ReachesNode(adj: Adjacency, x: int, y: int) {
    exists w :: WalkTo(adj, x, y, w)
  }

  lemma WalkOn(adj: Adjacency, x: int, y: int, z: int)
    requires ReachesNode(adj, x, y) && ReachesNode(adj, y, z)
    ensures ReachesNode(adj, x, z)
  {
    var v :| WalkTo(adj, x, y, v);
    var w :| WalkTo(adj, y, z, w);
    var all := v + w[1..];
    forall i | 0 <= i < |all| - 1
      ensures HasEdge(adj, all[i], all[i + 1])
    {
      if i >= |v| - 1 {
        assert all[i] == w[i - |v| + 1] && all[i + 1] == w[i - |v| + 2];
      }
    }
    assert WalkTo(adj, x, z, all);
  }

  lemma CycleReached(adj: Adjacency, x: int, c: seq<int>)
    requires Cycle(adj, c) && ReachesNode(adj, x, c[0])
    ensures ReachesCycle(adj, x)
  {
    var w :| WalkTo(adj, x, c[0], w);
  }

  lemma ReachesThrough(adj: Adjacency, x: int, y: int)
    requires ReachesNode(adj, x, y) && ReachesCycle(adj, y)
    ensures ReachesCycle(adj, x)
  {
    var w, c :| Walk(adj, w) && w[0] == y && Cycle(adj, c) && w[|w| - 1] == c[0];
    assert WalkTo(adj, y, c[0], w);
    WalkOn(adj, x, y, c[0]);
    CycleReached(adj, x, c);
  }

  /** A node that reaches a cycle has a successor that does. */
  lemma NextReaches(adj: Adjacency, x: int) returns (y: int)
    requires ReachesCycle(adj, x)
    ensures HasEdge(adj, x, y) && ReachesCycle(adj, y)
  {
    var w, c :| Walk(adj, w) && w[0] == x && Cycle(adj, c) && w[|w| - 1] == c[0];
    if |w| > 1 {
      y := w[1];
      assert HasEdge(adj, w[0], w[1]);
      assert WalkTo(adj, y, c[0], w[1..]);
      CycleReached(adj, y, c);
    } else if |c| > 1 {
      y := c[1];
      assert HasEdge(adj, c[0], c[1]);
      AroundTheCycle(adj, c, 1);
    } else {
      y := c[0];
      assert WalkTo(adj, y, y, [y]);
      CycleReached(adj, y, c);
    }
  }

  /** From anywhere on a cycle its start is reached, and the other way round. */
  lemma AroundTheCycle(adj: Adjacency, c: seq<int>, j: nat)
    requires Cycle(adj, c) && j < |c|
    ensures ReachesNode(adj, c[0], c[j]) && ReachesNode(adj, c[j], c[0]) && ReachesCycle(adj, c[j])
  {
    assert WalkTo(adj, c[0], c[j], c[..j + 1]);
    var w := c[j..] + [c[0]];
    forall i | 0 <= i < |w| - 1
      ensures HasEdge(adj, w[i], w[i + 1])
    {
      assert w[i] == c[j + i];
    }
    assert WalkTo(adj, c[j], c[0], w);
    CycleReached(adj, c[j], c);
  }

  // ── Cycles that are not worth a hint ───────────────────────────────────────

  /** A simple cycle of one goroutine, or with one that is not blocked. */
  ghost predicate BadCycle(adj: Adjacency, blocked: set<int>, c: seq<int>) {
    Cycle(adj, c) && NoRepeats(c) && !Deadlocked(c, blocked)
  }

  ghost predicate ReachesBad(adj: Adjacency, blocked: set<int>, x: int) {
    exists c :: BadCycle(adj, blocked, c) && ReachesNode(adj, x, c[0])
  }

  /** The goroutine ends up in a deadlock whatever edges are followed. */
  ghost predicate Trapped(adj: Adjacency, blocked: set<int>, x: int) {
    ReachesCycle(adj, x) && !ReachesBad(adj, blocked, x)
  }

  ghost predicate NoneTrapped(adj: Adjacency, blocked: set<int>) {
    forall x :: !Trapped(adj, blocked, x)
  }

  /** Where a search that wants to miss deadlocks should head for. */
  ghost predicate Flaw(adj: Adjacency, blocked: set<int>, w: int) {
    HasEdge(adj, w, w) || (w !in blocked && ReachesCycle(adj, w))
  }

  lemma FlawReachesCycle(adj: Adjacency, blocked: set<int>, w: int)
    requires Flaw(adj, blocked, w)
    ensures ReachesCycle(adj, w)
  {
    if HasEdge(adj, w, w) {
      assert Cycle(adj, [w]);
      assert WalkTo(adj, w, w, [w]);
      CycleReached(adj, w, [w]);
    }
  }

  lemma BadReachesFlaw(adj: Adjacency, blocked: set<int>, x: int) returns (w: int)
    requires ReachesBad(adj, blocked, x)
    ensures Flaw(adj, blocked, w) && ReachesNode(adj, x, w)
  {
    var c :| BadCycle(adj, blocked, c) && ReachesNode(adj, x, c[0]);
    if |c| == 1 {
      w := c[0];
    } else {
      var j :| 0 <= j < |c| && c[j] !in blocked;
      AroundTheCycle(adj, c, j);
      w := c[j];
      WalkOn(adj, x, c[0], w);
    }
  }

  // ── A trapped goroutine is hinted in every order ───────────────────────────

  ghost predicate SameEdges(a: Adjacency, b: Adjacency) {
    forall x, y :: HasEdge(a, x, y) <==> HasEdge(b, x, y)
  }

  lemma SameCycles(a: Adjacency, b: Adjacency, x: int)
    requires SameEdges(a, b)
    ensures ReachesCycle(a, x) <==> ReachesCycle(b, x)
  {
    if w, c :| Walk(a, w) && w[0] == x && Cycle(a, c) && w[|w| - 1] == c[0] {
      assert Walk(b, w) && Cycle(b, c);
    }
    if w, c :| Walk(b, w) && w[0] == x && Cycle(b, c) && w[|w| - 1] == c[0] {
      assert Walk(a, w) && Cycle(a, c);
    }
  }

  lemma BadMoves(a: Adjacency, b: Adjacency, blocked: set<int>, x: int)
    requires SameEdges(a, b) && ReachesBad(a, blocked, x)
    ensures ReachesBad(b, blocked, x)
  {
    var c :| BadCycle(a, blocked, c) && ReachesNode(a, x, c[0]);
    var w :| WalkTo(a, x, c[0], w);
    assert BadCycle(b, blocked, c) && WalkTo(b, x, c[0], w);
  }

  lemma StartsInAdj(adj: Adjacency, x: int)
    requires ReachesCycle(adj, x)
    ensures x in adj
  {
    var y := NextReaches(adj, x);
  }

  lemma TrappedHinted(adj: Adjacency, blocked: set<int>, x: int)
    requires Trapped(adj, blocked, x)
    ensures Hinted(adj, blocked)
  {
    FindCycleExact(adj, x);
    StartsInAdj(adj, x);
    var p, i := FindCycleSound(adj, x, []);
    assert WalkTo(adj, x, p[i], p[..i + 1]);
    var c := Found(adj, x);
    assert c[0] == p[i];
    assert !BadCycle(adj, blocked, c);
  }

  lemma PermutedEdges(edges: seq<ResourceEdge>, other: seq<ResourceEdge>)
    requires multiset(edges) == multiset(other)
    ensures SameEdges(AdjacencyOf(edges, true), AdjacencyOf(other, true))
  {
    forall x, y
      ensures HasEdge(AdjacencyOf(edges, true), x, y) <==> HasEdge(AdjacencyOf(other, true), x, y)
    {
      AdjacencyMeans(edges, true, x, y);
      AdjacencyMeans(other, true, x, y);
      forall e
        ensures e in edges <==> e in other
      {
        assert e in multiset(edges) <==> e in multiset(other);
      }
    }
  }

  lemma TrappedInEveryOrder(edges: seq<ResourceEdge>, other: seq<ResourceEdge>, blocked: set<int>, x: int)
    requires multiset(edges) == multiset(other) && Trapped(AdjacencyOf(edges, true), blocked, x)
    ensures Hinted(AdjacencyOf(other, true), blocked)
  {
    var a, b := AdjacencyOf(edges, true), AdjacencyOf(other, true);
    PermutedEdges(edges, other);
    SameCycles(a, b, x);
    if ReachesBad(b, blocked, x) {
      BadMoves(b, a, blocked, x);
    }
    TrappedHinted(b, blocked, x);
  }

  // ── Otherwise some order hides everything ──────────────────────────────────

  ghost predicate WalkToFlaw(adj: Adjacency, blocked: set<int>, x: int, w: seq<int>) {
    Walk(adj, w) && w[0] == x && Flaw(adj, blocked, w[|w| - 1])
  }

  ghost predicate StepsTo(adj: Adjacency, blocked: set<int>, x: int, n: nat) {
    exists w :: WalkToFlaw(adj, blocked, x, w) && |w| == n + 1
  }

  ghost predicate Shortest(adj: Adjacency, blocked: set<int>, x: int, n: nat) {
    StepsTo(adj, blocked, x, n) && forall m: nat :: m < n ==> !StepsTo(adj, blocked, x, m)
  }

  lemma {:induction false} ShortestExists(adj: Adjacency, blocked: set<int>, x: int, n: nat) returns (least: nat)
    requires StepsTo(adj, blocked, x, n)
    ensures Shortest(adj, blocked, x, least) && least <= n
  {
    if m: nat :| m < n && StepsTo(adj, blocked, x, m) {
      least := ShortestExists(adj, blocked, x, m);
    } else {
      least := n;
    }
  }

  /** How far the nearest flaw is. */
  ghost function StepsToFlaw(adj: Adjacency, blocked: set<int>, x: int): nat {
    if exists n: nat :: Shortest(adj, blocked, x, n) then
      var n: nat :| Shortest(adj, blocked, x, n);
      n
    else 0
  }

  lemma StepsAre(adj: Adjacency, blocked: set<int>, x: int, n: nat)
    requires Shortest(adj, blocked, x, n)
    ensures StepsToFlaw(adj, blocked, x) == n
  {
    assert forall m: nat :: Shortest(adj, blocked, x, m) ==> !(m < n) && !(n < m);
  }

  ghost predicate Nearer(adj: Adjacency, blocked: set<int>, x: int, y: int) {
    StepsToFlaw(adj, blocked, y) < StepsToFlaw(adj, blocked, x)
  }

  /** Following y from x leads on towards a flaw, or x is one. */
  ghost predicate LeadsOn(adj: Adjacency, blocked: set<int>, x: int, y: int) {
    && HasEdge(adj, x, y) && ReachesCycle(adj, y) && (HasEdge(adj, x, x) ==> y == x)
    && (x in blocked && !HasEdge(adj, x, x) ==> Nearer(adj, blocked, x, y))
  }

  lemma HeadsFor(adj: Adjacency, blocked: set<int>, x: int) returns (y: int)
    requires ReachesCycle(adj, x) && ReachesBad(adj, blocked, x)
    ensures LeadsOn(adj, blocked, x, y)
  {
    if HasEdge(adj, x, x) {
      y := x;
    } else if x !in blocked {
      y := NextReaches(adj, x);
    } else {
      var f := BadReachesFlaw(adj, blocked, x);
      var v :| WalkTo(adj, x, f, v);
      assert WalkToFlaw(adj, blocked, x, v);
      var least := ShortestExists(adj, blocked, x, |v| - 1);
      y := NearerFlaw(adj, blocked, x, least);
    }
  }

  lemma NearerFlaw(adj: Adjacency, blocked: set<int>, x: int, least: nat) returns (y: int)
    requires Shortest(adj, blocked, x, least) && !Flaw(adj, blocked, x)
    ensures HasEdge(adj, x, y) && ReachesCycle(adj, y) && Nearer(adj, blocked, x, y)
  {
    var w :| WalkToFlaw(adj, blocked, x, w) && |w| == least + 1;
    y := w[1];
    assert HasEdge(adj, w[0], w[1]);
    var rest := w[1..];
    assert WalkToFlaw(adj, blocked, y, rest) && StepsTo(adj, blocked, y, least - 1);
    assert WalkTo(adj, y, rest[|rest| - 1], rest);
    FlawReachesCycle(adj, blocked, rest[|rest| - 1]);
    ReachesThrough(adj, y, rest[|rest| - 1]);
    StepsAre(adj, blocked, x, least);
    var nearer := ShortestExists(adj, blocked, y, least - 1);
    StepsAre(adj, blocked, y, nearer);
  }

  /** A successor for each node that reaches a cycle. */
  ghost predicate Choice(adj: Adjacency, blocked: set<int>, next: map<int, int>) {
    (forall x :: x in next <==> ReachesCycle(adj, x)) && LeadOn(adj, blocked, next)
  }

  ghost predicate LeadOn(adj: Adjacency, blocked: set<int>, next: map<int, int>) {
    forall x :: x in next ==> LeadsOn(adj, blocked, x, next[x])
  }

  lemma {:induction false} ChooseFor(adj: Adjacency, blocked: set<int>, left: set<int>) returns (next: map<int, int>)
    requires forall x :: x in left ==> ReachesCycle(adj, x) && ReachesBad(adj, blocked, x)
    ensures next.Keys == left && LeadOn(adj, blocked, next)
    decreases left
  {
    if left == {} {
      return map[];
    }
    var x := AnyOf(left);
    var rest := ChooseFor(adj, blocked, left - {x});
    var y := HeadsFor(adj, blocked, x);
    next := rest[x := y];
    OneMoreHeads(adj, blocked, rest, x, y);
  }

  lemma OneMoreHeads(adj: Adjacency, blocked: set<int>, rest: map<int, int>, x: int, y: int)
    requires LeadOn(adj, blocked, rest) && LeadsOn(adj, blocked, x, y)
    ensures LeadOn(adj, blocked, rest[x := y])
  {
    var next := rest[x := y];
    forall z | z in next
      ensures LeadsOn(adj, blocked, z, next[z])
    {
      if z != x {
        assert next[z] == rest[z];
      }
    }
  }

  lemma Choose(adj: Adjacency, blocked: set<int>) returns (next: map<int, int>)
    requires NoneTrapped(adj, blocked)
    ensures Choice(adj, blocked, next)
  {
    var all := set x | x in adj && ReachesCycle(adj, x);
    forall x | x in all
      ensures ReachesBad(adj, blocked, x)
    {
      assert !Trapped(adj, blocked, x);
    }
    next := ChooseFor(adj, blocked, all);
    forall x | ReachesCycle(adj, x)
      ensures x in adj
    {
      StartsInAdj(adj, x);
    }
  }

  // ── Searches that follow the choice ────────────────────────────────────────

  /** The chosen successor is tried first. */
  ghost predicate TriesFirst(adj: Adjacency, next: map<int, int>) {
    forall x :: x in next ==> x in adj && adj[x] != [] && adj[x][0] == next[x] && next[x] in next
  }

  ghost predicate TakesFirsts(next: map<int, int>, path: seq<int>) {
    forall i :: 0 <= i < |path| ==> path[i] in next && (i + 1 < |path| ==> next[path[i]] == path[i + 1])
  }

  ghost predicate Closed(next: map<int, int>, c: seq<int>) {
    c != [] && TakesFirsts(next, c) && next[c[|c| - 1]] == c[0]
  }

  /** The search goes where the choice leads and closes a cycle of it. */
  lemma {:induction false} SearchFollows(adj: Adjacency, next: map<int, int>, curr: int, path: seq<int>)
    requires TriesFirst(adj, next) && curr in next && TakesFirsts(next, path)
    requires path != [] ==> next[path[|path| - 1]] == curr
    ensures Closed(next, FindCycle(adj, curr, path))
    decreases adj.Keys - Elements(path)
  {
    if curr in path {
      var k := IndexOf(path, curr);
      assert path[k..][|path| - k - 1] == path[|path| - 1];
    } else {
      Progress(adj, curr, path);
      SearchFollows(adj, next, next[curr], path + [curr]);
      assert FindAmong(adj, adj[curr], path + [curr]) == FindCycle(adj, next[curr], path + [curr]);
    }
  }

  /** Blocked goroutines go on to one with a smaller measure, unless they stay where they are. */
  ghost predicate Falls(next: map<int, int>, far: map<int, nat>, blocked: set<int>) {
    && far.Keys == next.Keys && (forall x :: x in next ==> next[x] in next)
    && forall x :: x in next && x in blocked && next[x] != x ==> far[next[x]] < far[x]
  }

  lemma ChosenStepNears(adj: Adjacency, blocked: set<int>, next: map<int, int>, x: int)
    requires Choice(adj, blocked, next) && x in next
    ensures next[x] in next && HasEdge(adj, x, next[x])
    ensures x in blocked && next[x] != x ==> StepsToFlaw(adj, blocked, next[x]) < StepsToFlaw(adj, blocked, x)
  {
    assert LeadsOn(adj, blocked, x, next[x]);
  }

  /** Every chosen step of a blocked goroutine comes nearer to a flaw, or stays. */
  ghost predicate Approaches(adj: Adjacency, blocked: set<int>, next: map<int, int>) {
    forall x :: x in next ==>
      && next[x] in next
      && (x in blocked && next[x] != x ==>
            StepsToFlaw(adj, blocked, next[x]) < StepsToFlaw(adj, blocked, x))
  }

  lemma ChoiceApproaches(adj: Adjacency, blocked: set<int>, next: map<int, int>)
    requires Choice(adj, blocked, next)
    ensures Approaches(adj, blocked, next)
  {
    forall x | x in next
      ensures next[x] in next
      ensures x in blocked && next[x] != x ==> StepsToFlaw(adj, blocked, next[x]) < StepsToFlaw(adj, blocked, x)
    {
      ChosenStepNears(adj, blocked, next, x);
    }
  }

  lemma Measure(adj: Adjacency, blocked: set<int>, next: map<int, int>) returns (far: map<int, nat>)
    requires Approaches(adj, blocked, next)
    ensures Falls(next, far, blocked)
  {
    far := map x | x in next :: StepsToFlaw(adj, blocked, x);
  }

  lemma {:induction false} FarFalls(next: map<int, int>, far: map<int, nat>, blocked: set<int>, c: seq<int>, i: nat)
    requires Falls(next, far, blocked) && Closed(next, c) && NoRepeats(c) && Deadlocked(c, blocked) && i < |c|
    ensures c[i] in far && c[0] in far && far[c[i]] <= far[c[0]]
  {
    if i > 0 {
      FarFalls(next, far, blocked, c, i - 1);
      assert c[i - 1] in c && c[i - 1] != c[i];
    }
  }

  lemma ClosedStep(next: map<int, int>, c: seq<int>, i: nat)
    requires Closed(next, c) && NoRepeats(c) && |c| >= 2 && i < |c|
    ensures c[i] in next && c[i] in c
    ensures next[c[i]] == (if i + 1 < |c| then c[i + 1] else c[0]) && next[c[i]] != c[i]
  {
  }

  /** A cycle of the choice is never worth a hint. */
  lemma ChosenCyclesAreBad(next: map<int, int>, far: map<int, nat>, blocked: set<int>, c: seq<int>)
    requires Falls(next, far, blocked) && Closed(next, c) && NoRepeats(c)
    ensures !Deadlocked(c, blocked)
  {
    if Deadlocked(c, blocked) {
      FarFalls(next, far, blocked, c, |c| - 1);
      ClosedStep(next, c, |c| - 1);
    }
  }

  // ── Edges put first ────────────────────────────────────────────────────────

  function Targets(edges: seq<ResourceEdge>, x: int): seq<int> {
    if edges == [] then []
    else
      var e := edges[|edges| - 1];
      Targets(edges[..|edges| - 1], x) + (if e.from == x && e.to != 0 then [e.to] else [])
  }

  lemma {:induction false} SuccessorsAreTargets(edges: seq<ResourceEdge>, x: int)
    ensures Successors(AdjacencyOf(edges, true), x) == Targets(edges, x)
  {
    if edges != [] {
      SuccessorsAreTargets(edges[..|edges| - 1], x);
    }
  }

  lemma {:induction false} TargetsConcat(a: seq<ResourceEdge>, b: seq<ResourceEdge>, x: int)
    ensures Targets(a + b, x) == Targets(a, x) + Targets(b, x)
  {
    if b == [] {
      assert a + b == a;
    } else {
      assert (a + b)[..|a + b| - 1] == a + b[..|b| - 1];
      TargetsConcat(a, b[..|b| - 1], x);
    }
  }

  lemma OneTarget(e: ResourceEdge, x: int)
    ensures Targets([e], x) == if e.from == x && e.to != 0 then [e.to] else []
  {
    assert [e][..0] == [];
  }

  lemma TargetsFront(e: ResourceEdge, rest: seq<ResourceEdge>, x: int)
    ensures Targets([e] + rest, x) == (if e.from == x && e.to != 0 then [e.to] else []) + Targets(rest, x)
  {
    TargetsConcat([e], rest, x);
    OneTarget(e, x);
  }

  lemma TargetsMiddle(a: seq<ResourceEdge>, e: ResourceEdge, b: seq<ResourceEdge>, x: int)
    ensures Targets(a + [e] + b, x) == Targets(a, x) + (if e.from == x && e.to != 0 then [e.to] else []) + Targets(b, x)
  {
    TargetsConcat(a + [e], b, x);
    TargetsConcat(a, [e], x);
    OneTarget(e, x);
  }

  function Front(edges: seq<ResourceEdge>, i: nat): (other: seq<ResourceEdge>)
    requires i < |edges|
  {
    [edges[i]] + (edges[..i] + edges[i + 1..])
  }

  lemma FrontPermutes(edges: seq<ResourceEdge>, i: nat)
    requires i < |edges|
    ensures multiset(Front(edges, i)) == multiset(edges)
  {
    assert edges == edges[..i] + [edges[i]] + edges[i + 1..];
  }

  /** One edge moved to the front is the first of its source, and nothing else changes. */
  lemma PutFirst(edges: seq<ResourceEdge>, i: nat, x: int)
    requires i < |edges| && edges[i].to != 0
    ensures x != edges[i].from ==> Targets(Front(edges, i), x) == Targets(edges, x)
    ensures x == edges[i].from ==> Targets(Front(edges, i), x) != [] && Targets(Front(edges, i), x)[0] == edges[i].to
  {
    var a, e, b := edges[..i], edges[i], edges[i + 1..];
    assert edges == a + [e] + b;
    TargetsMiddle(a, e, b, x);
    TargetsFront(e, a + b, x);
    TargetsConcat(a, b, x);
  }

  ghost predicate FirstTargets(edges: seq<ResourceEdge>, next: map<int, int>, done: set<int>) {
    forall x :: x in done && x in next ==> Targets(edges, x) != [] && Targets(edges, x)[0] == next[x]
  }

  lemma {:induction false} Arrange(edges: seq<ResourceEdge>, next: map<int, int>, done: set<int>)
    returns (other: seq<ResourceEdge>)
    requires forall x :: x in next ==> next[x] in Targets(edges, x)
    ensures multiset(other) == multiset(edges) && FirstTargets(other, next, done)
    decreases done
  {
    if done == {} {
      return edges;
    }
    var x := AnyOf(done);
    var before := Arrange(edges, next, done - {x});
    if x !in next {
      return before;
    }
    var i := EdgeOf(edges, before, x, next[x]);
    other := Front(before, i);
    FrontPermutes(before, i);
    forall y | y in done && y in next
      ensures Targets(other, y) != [] && Targets(other, y)[0] == next[y]
    {
      PutFirst(before, i, y);
    }
  }

  lemma EdgeOf(edges: seq<ResourceEdge>, other: seq<ResourceEdge>, x: int, y: int) returns (i: nat)
    requires multiset(other) == multiset(edges) && y in Targets(edges, x)
    ensures i < |other| && other[i].from == x && other[i].to == y != 0
  {
    SuccessorsAreTargets(edges, x);
    AdjacencyMeans(edges, true, x, y);
    var e :| e in edges && e.from == x && e.to == y;
    assert e in multiset(other);
    i :| 0 <= i < |other| && other[i] == e;
  }

  // ── The theorem ────────────────────────────────────────────────────────────

  lemma NothingFound(adj: Adjacency, blocked: set<int>, next: map<int, int>, far: map<int, nat>, id: int)
    requires TriesFirst(adj, next) && Falls(next, far, blocked) && (ReachesCycle(adj, id) ==> id in next)
    ensures !Deadlocked(Found(adj, id), blocked)
  {
    FindCycleExact(adj, id);
    if Found(adj, id) != [] {
      FoundFollows(adj, next, id);
      ChosenCyclesAreBad(next, far, blocked, Found(adj, id));
    }
  }

  lemma FoundFollows(adj: Adjacency, next: map<int, int>, id: int)
    requires TriesFirst(adj, next) && id in next
    ensures Closed(next, Found(adj, id))
  {
    SearchFollows(adj, next, id, []);
  }

  lemma ChoiceIsTarget(edges: seq<ResourceEdge>, blocked: set<int>, next: map<int, int>, x: int)
    requires Choice(AdjacencyOf(edges, true), blocked, next) && x in next
    ensures next[x] in Targets(edges, x) && next[x] in next
  {
    SuccessorsAreTargets(edges, x);
    ChosenStepNears(AdjacencyOf(edges, true), blocked, next, x);
  }

  lemma FirstIsTried(edges: seq<ResourceEdge>, next: map<int, int>)
    requires FirstTargets(edges, next, next.Keys) && forall x :: x in next ==> next[x] in next
    ensures TriesFirst(AdjacencyOf(edges, true), next)
  {
    forall x | x in next
      ensures Successors(AdjacencyOf(edges, true), x) == Targets(edges, x)
    {
      SuccessorsAreTargets(edges, x);
    }
  }

  /** The edges in an order that tries the chosen successors first. */
  lemma ArrangeChoice(edges: seq<ResourceEdge>, blocked: set<int>, next: map<int, int>)
    returns (other: seq<ResourceEdge>)
    requires Choice(AdjacencyOf(edges, true), blocked, next)
    ensures multiset(other) == multiset(edges) && TriesFirst(AdjacencyOf(other, true), next)
  {
    forall x | x in next
      ensures next[x] in Targets(edges, x) && next[x] in next
    {
      ChoiceIsTarget(edges, blocked, next, x);
    }
    other := Arrange(edges, next, next.Keys);
    FirstIsTried(other, next);
  }

  lemma HiddenInSomeOrder(edges: seq<ResourceEdge>, blocked: set<int>) returns (other: seq<ResourceEdge>)
    requires NoneTrapped(AdjacencyOf(edges, true), blocked)
    ensures multiset(other) == multiset(edges) && !Hinted(AdjacencyOf(other, true), blocked)
  {
    var adj := AdjacencyOf(edges, true);
    var next := Choose(adj, blocked);
    ChoiceApproaches(adj, blocked, next);
    var far := Measure(adj, blocked, next);
    other := ArrangeChoice(edges, blocked, next);
    PermutedEdges(edges, other);
    forall id
      ensures !Deadlocked(Found(AdjacencyOf(other, true), id), blocked)
    {
      SameCycles(adj, AdjacencyOf(other, true), id);
      NothingFound(AdjacencyOf(other, true), blocked, next, far, id);
    }
  }

  /**
   There are hints whatever the order of the edges exactly when some goroutine reaches a cycle and every
   simple cycle it reaches is of two or more goroutines, all blocked.
   */
  lemma HintedInEveryOrder(edges: seq<ResourceEdge>, blocked: set<int>)
    ensures (forall other :: multiset(other) == multiset(edges) ==> Hinted(AdjacencyOf(other, true), blocked))
       <==> exists x :: Trapped(AdjacencyOf(edges, true), blocked, x)
  {
    if x :| Trapped(AdjacencyOf(edges, true), blocked, x) {
      forall other | multiset(other) == multiset(edges)
        ensures Hinted(AdjacencyOf(other, true), blocked)
      {
        TrappedInEveryOrder(edges, other, blocked, x);
      }
    } else {
      var other := HiddenInSomeOrder(edges, blocked);
    }
  }

  // ── A self edge hides a deadlock ───────────────────────────────────────────

  const LOOP: Adjacency := map[1 := [1, 2], 2 := [1]]

  lemma SelfEdgeFirst()
    ensures Found(LOOP, 1) == [1]
  {
    assert [] + [1] == [1];
    assert FindCycle(LOOP, 1, [1]) == [1];
    assert FindAmong(LOOP, [1, 2], [1]) == [1];
  }

  lemma SelfEdgeSecond()
    ensures Found(LOOP, 2) == [1]
  {
    assert [] + [2] == [2] && [2] + [1] == [2, 1];
    assert FindCycle(LOOP, 1, [2, 1]) == [2, 1][IndexOf([2, 1], 1)..] == [1];
    assert FindAmong(LOOP, [1, 2], [2, 1]) == [1];
    assert FindCycle(LOOP, 1, [2]) == [1];
    assert FindAmong(LOOP, [1], [2]) == [1];
  }

  lemma OneMoreEdge(edges: seq<ResourceEdge>, e: ResourceEdge)
    ensures AdjacencyOf(edges + [e], true) ==
      var adj := AdjacencyOf(edges, true);
      if e.to == 0 then adj else adj[e.from := Successors(adj, e.from) + [e.to]]
  {
    assert (edges + [e])[..|edges|] == edges;
  }

  lemma OneMoreGoroutine(goroutines: seq<Goroutine>, g: Goroutine)
    ensures BlockedIds(goroutines + [g])
         == if IsWaitState(g.state) then BlockedIds(goroutines) + {g.id} else BlockedIds(goroutines) - {g.id}
  {
    assert (goroutines + [g])[..|goroutines|] == goroutines;
  }

  function LoopEdges(): seq<ResourceEdge> {
    [] + [ResourceEdge(1, 1, "a")] + [ResourceEdge(1, 2, "b")] + [ResourceEdge(2, 1, "c")]
  }

  function LoopGoroutines(): seq<Goroutine> {
    [] + [ZERO.(id := 1, state := Blocked)] + [ZERO.(id := 2, state := Blocked)]
  }

  lemma LoopAdjacency()
    ensures AdjacencyOf(LoopEdges(), true) == LOOP
  {
    var self, there, back := ResourceEdge(1, 1, "a"), ResourceEdge(1, 2, "b"), ResourceEdge(2, 1, "c");
    OneMoreEdge([], self);
    OneMoreEdge([] + [self], there);
    OneMoreEdge([] + [self] + [there], back);
    assert [] + [1] + [2] == [1, 2] && [] + [1] == [1];
  }

  lemma LoopBlocked()
    ensures BlockedIds(LoopGoroutines()) == {1, 2}
  {
    var one, two := ZERO.(id := 1, state := Blocked), ZERO.(id := 2, state := Blocked);
    OneMoreGoroutine([], one);
    OneMoreGoroutine([] + [one], two);
  }

  lemma SelfEdgeHides()
    ensures GoodHint(LOOP, {1, 2}, [1, 2]) && !Hinted(LOOP, {1, 2})
  {
    assert HasEdge(LOOP, 1, 2) && HasEdge(LOOP, 2, 1);
    SelfEdgeFirst();
    SelfEdgeSecond();
  }

  /** 1 waits for itself and for 2, 2 waits for 1, both are blocked: a deadlock, and no hint of it. */
  method SelfEdgeHidesDeadlock() returns (hints: seq<seq<int>>)
    ensures hints == []
    ensures GoodHint(AdjacencyOf(LoopEdges(), true), BlockedIds(LoopGoroutines()), [1, 2])
  {
    LoopAdjacency();
    LoopBlocked();
    SelfEdgeHides();
    hints := FindDeadlockHints(LoopEdges(), LoopGoroutines());
  }
}
