/** The two cycle detectors: the exhaustive path search of graph.go and the marking search of watch.go. */
module CycleSearch {
  import opened Collections
  import opened Graph

  ghost function Elements(s: seq<int>): set<int> {
    set x | x in s
  }

  // ── findCycleFrom ──────────────────────────────────────────────────────────

  function IndexOf(path: seq<int>, x: int): (i: nat)
    requires x in path
    ensures i < |path| && path[i] == x && x !in path[..i]
  {
    if path[0] == x then 0 else 1 + IndexOf(path[1..], x)
  }

  /** What the search returns when the path so far is path. */
  ghost function FindCycle(adj: Adjacency, curr: int, path: seq<int>): seq<int>
    decreases adj.Keys - Elements(path), 0, 0
  {
    if curr in path then path[IndexOf(path, curr)..]
    else if curr !in adj then []
    else
      Progress(adj, curr, path);
      FindAmong(adj, adj[curr], path + [curr])
  }

  /** The first cycle found from one of the nodes, tried in order. */
  ghost function FindAmong(adj: Adjacency, next: seq<int>, path: seq<int>): seq<int>
    decreases adj.Keys - Elements(path), 1, |next|
  {
    if next == [] then []
    else
      var c := FindCycle(adj, next[0], path);
      if c != [] then c else FindAmong(adj, next[1..], path)
  }

  lemma Progress(adj: Adjacency, curr: int, path: seq<int>)
    requires curr !in path && curr in adj
    ensures adj.Keys - Elements(path + [curr]) < adj.Keys - Elements(path)
  {
    assert adj.Keys - Elements(path) == (adj.Keys - Elements(path + [curr])) + {curr};
  }

  /** A search path: a simple walk with an edge to the node searched next. */
  ghost predicate OnPath(adj: Adjacency, path: seq<int>, curr: int) {
    NoRepeats(path) && (path != [] ==> Walk(adj, path) && HasEdge(adj, path[|path| - 1], curr))
  }

  /** c closes the walk p, which continues path and curr. */
  ghost predicate Closes(adj: Adjacency, path: seq<int>, curr: int, p: seq<int>, i: int, c: seq<int>) {
    Lasso(adj, p, i) && NoRepeats(p) && c == p[i..] && path <= p && (path == [] ==> p[0] == curr)
  }

  /** What is found closes a walk that continues the path searched. */
  lemma {:induction false} FindCycleSound(adj: Adjacency, curr: int, path: seq<int>) returns (p: seq<int>, i: int)
    requires OnPath(adj, path, curr) && FindCycle(adj, curr, path) != []
    ensures Closes(adj, path, curr, p, i, FindCycle(adj, curr, path))
    decreases adj.Keys - Elements(path), 0, 0
  {
    if curr in path {
      p, i := path, IndexOf(path, curr);
    } else {
      Progress(adj, curr, path);
      var longer := path + [curr];
      OneFurther(adj, path, curr);
      p, i := FindAmongSound(adj, adj[curr], longer);
      assert p[|path|] == longer[|path|] && path <= longer;
    }
  }

  lemma OneFurther(adj: Adjacency, path: seq<int>, curr: int)
    requires OnPath(adj, path, curr) && curr !in path
    ensures NoRepeats(path + [curr]) && Walk(adj, path + [curr])
  {
  }

  lemma {:induction false} FindAmongSound(adj: Adjacency, next: seq<int>, path: seq<int>) returns (p: seq<int>, i: int)
    requires path != [] && NoRepeats(path) && Walk(adj, path)
    requires forall k :: 0 <= k < |next| ==> HasEdge(adj, path[|path| - 1], next[k])
    requires FindAmong(adj, next, path) != []
    ensures Lasso(adj, p, i) && NoRepeats(p) && FindAmong(adj, next, path) == p[i..] && path <= p
    decreases adj.Keys - Elements(path), 1, |next|
  {
    if FindCycle(adj, next[0], path) != [] {
      p, i := FindCycleSound(adj, next[0], path);
    } else {
      p, i := FindAmongSound(adj, next[1..], path);
    }
  }

  /** A search that finds nothing has seen every walk from its node run off without meeting itself or the path. */
  lemma {:induction false} FindCycleComplete(adj: Adjacency, curr: int, path: seq<int>, w: seq<int>)
    requires FindCycle(adj, curr, path) == []
    requires Walk(adj, w) && w[0] == curr
    ensures NoRepeats(w) && forall x :: x in w ==> x !in path
    decreases |w|
  {
    assert curr !in path;
    if |w| > 1 {
      assert HasEdge(adj, w[0], w[1]);
      FindAmongNone(adj, adj[curr], path + [curr], w[1]);
      assert Walk(adj, w[1..]);
      FindCycleComplete(adj, w[1], path + [curr], w[1..]);
      forall j | 1 <= j < |w|
        ensures w[j] != w[0] && w[j] !in path
      {
        assert w[j] in w[1..];
      }
    }
  }

  lemma {:induction false} FindAmongNone(adj: Adjacency, next: seq<int>, path: seq<int>, x: int)
    requires FindAmong(adj, next, path) == [] && x in next
    ensures FindCycle(adj, x, path) == []
  {
    if next[0] != x {
      FindAmongNone(adj, next[1..], path, x);
    }
  }

  /** The path search finds a cycle exactly when one is reachable, and what it finds is a simple cycle. */
  lemma FindCycleExact(adj: Adjacency, x: int)
    ensures FindCycle(adj, x, []) != [] <==> ReachesCycle(adj, x)
    ensures FindCycle(adj, x, []) != [] ==> Cycle(adj, FindCycle(adj, x, [])) && NoRepeats(FindCycle(adj, x, []))
  {
    if FindCycle(adj, x, []) != [] {
      var p, i := FindCycleSound(adj, x, []);
      LassoReaches(adj, p, i);
    } else if ReachesCycle(adj, x) {
      var w := CycleRevisits(adj, x);
      FindCycleComplete(adj, x, [], w);
    }
  }

  /** The inPath map of the search: the nodes marked true. */
  class Marks {
    var on: set<int>

    constructor ()
      ensures on == {}
    {
      on := {};
    }
  }

  method FindCycleFrom(curr: int, path: seq<int>, adj: Adjacency, inPath: Marks) returns (cycle: seq<int>)
    requires inPath.on == Elements(path)
    modifies inPath
    ensures cycle == FindCycle(adj, curr, path)
    ensures cycle == [] ==> inPath.on == old(inPath.on)
    decreases adj.Keys - Elements(path)
  {
    if curr in inPath.on {
      var startIdx := 0;
      for i := 0 to |path|
        invariant startIdx == 0 && curr !in path[..i]
      {
        if path[i] == curr {
          startIdx := i;
          break;
        }
      }
      assert startIdx == IndexOf(path, curr) by {
        FirstIndex(path, curr, startIdx);
      }
      return path[startIdx..];
    }
    inPath.on := inPath.on + {curr};
    var longer := path + [curr];
    assert Elements(longer) == Elements(path) + {curr};
    var next := Successors(adj, curr);
    for i := 0 to |next|
      invariant inPath.on == Elements(longer)
      invariant FindAmong(adj, next[i..], longer) == FindCycle(adj, curr, path)
    {
      Progress(adj, curr, path);
      var c := FindCycleFrom(next[i], longer, adj, inPath);
      if |c| > 0 {
        return c;
      }
    }
    inPath.on := inPath.on - {curr};
    assert inPath.on == Elements(path);
    cycle := [];
  }

  lemma FirstIndex(path: seq<int>, x: int, i: nat)
    requires i < |path| && path[i] == x && x !in path[..i]
    ensures IndexOf(path, x) == i
  {
  }

  // ── hasDeadlockCycle ───────────────────────────────────────────────────────

  /** Every ranked node has all its successors ranked below it. */
  ghost predicate Finished(adj: Adjacency, rank: map<int, nat>) {
    forall x, y :: x in rank && HasEdge(adj, x, y) ==> y in rank && rank[y] < rank[x]
  }

  /** From a finished node every walk goes strictly down. */
  lemma {:induction false} FinishedWalks(adj: Adjacency, rank: map<int, nat>, w: seq<int>)
    requires Finished(adj, rank) && Walk(adj, w) && w[0] in rank
    ensures forall j :: 0 < j < |w| ==> w[j] in rank && rank[w[j]] < rank[w[0]]
    ensures NoRepeats(w)
    decreases |w|
  {
    if |w| > 1 {
      assert HasEdge(adj, w[0], w[1]);
      assert Walk(adj, w[1..]);
      FinishedWalks(adj, rank, w[1..]);
      forall j | 0 < j < |w|
        ensures w[j] in rank && rank[w[j]] < rank[w[0]]
      {
        assert w[j] == w[1..][j - 1];
      }
    }
  }

  lemma FinishedReachNoCycle(adj: Adjacency, rank: map<int, nat>, x: int)
    requires Finished(adj, rank) && x in rank
    ensures !ReachesCycle(adj, x)
  {
    if ReachesCycle(adj, x) {
      var w := CycleRevisits(adj, x);
      FinishedWalks(adj, rank, w);
    }
  }

  /** The stack is a walk, the rest of what is visited is finished. */
  ghost predicate Consistent(adj: Adjacency, stack: seq<int>, visited: set<int>, inStack: set<int>,
                             rank: map<int, nat>)
  {
    && visited == inStack + rank.Keys && inStack !! rank.Keys
    && (forall x :: x in inStack <==> x in stack)
    && Finished(adj, rank)
    && (stack != [] ==> Walk(adj, stack)) && NoRepeats(stack)
  }

  lemma Enter(adj: Adjacency, stack: seq<int>, visited: set<int>, inStack: set<int>, rank: map<int, nat>, id: int)
    requires Consistent(adj, stack, visited, inStack, rank) && id !in visited
    requires stack != [] ==> HasEdge(adj, stack[|stack| - 1], id)
    ensures Consistent(adj, stack + [id], visited + {id}, inStack + {id}, rank)
  {
  }

  /** All of a node's successors being finished, it is finished after them all. */
  lemma Leave(adj: Adjacency, stack: seq<int>, visited: set<int>, inStack: set<int>, rank: map<int, nat>, clock: nat,
              id: int)
    requires Consistent(adj, stack + [id], visited, inStack, rank)
    requires forall x :: x in rank ==> rank[x] < clock
    requires forall y :: y in Successors(adj, id) ==> y in rank
    ensures Consistent(adj, stack, visited, inStack - {id}, rank[id := clock])
    ensures var rank' := rank[id := clock]; forall x :: x in rank' ==> rank'[x] < clock + 1
  {
    var longer := stack + [id];
    assert longer[|stack|] == id && id in longer;
    assert forall i :: 0 <= i < |stack| ==> longer[i] == stack[i];
    assert forall x :: x in stack ==> x in longer;
  }

  /** The maps shared by the closure: visited and inStack, as the nodes marked true. */
  class Search {
    var visited: set<int>
    var inStack: set<int>
    /** The nodes the closure has returned false for, numbered in that order. */
    ghost var rank: map<int, nat>
    ghost var clock: nat

    constructor ()
      ensures visited == {} && inStack == {} && rank == map[] && clock == 0
    {
      visited, inStack, rank, clock := {}, {}, map[], 0;
    }

    ghost predicate Valid(adj: Adjacency, stack: seq<int>)
      reads this
    {
      Consistent(adj, stack, visited, inStack, rank) && forall x :: x in rank ==> rank[x] < clock
    }

    method Dfs(id: int, adj: Adjacency, ghost stack: seq<int>) returns (found: bool, ghost p: seq<int>, ghost k: int)
      requires Valid(adj, stack) && id !in visited
      requires stack != [] ==> HasEdge(adj, stack[|stack| - 1], id)
      modifies this
      ensures found ==> Lasso(adj, p, k) && stack + [id] <= p
      ensures !found ==> Valid(adj, stack) && old(rank).Keys <= rank.Keys && id in rank
      ensures old(visited) <= visited
      decreases adj.Keys - visited, 0
    {
      Enter(adj, stack, visited, inStack, rank, id);
      visited, inStack := visited + {id}, inStack + {id};
      ghost var longer := stack + [id];
      var next := Successors(adj, id);
      for i := 0 to |next|
        invariant Valid(adj, longer)
        invariant old(rank).Keys <= rank.Keys
        invariant forall j :: 0 <= j < i ==> next[j] in rank.Keys
        invariant old(visited) <= visited && id in visited
      {
        found, p, k := Look(next[i], adj, longer);
        if found {
          return;
        }
      }
      Leave(adj, stack, visited, inStack, rank, clock, id);
      inStack := inStack - {id};
      rank, clock := rank[id := clock], clock + 1;
      found, p, k := false, [], 0;
    }

    /** One neighbour: searched if new, a cycle if still on the stack. */
    method Look(nb: int, adj: Adjacency, ghost stack: seq<int>) returns (found: bool, ghost p: seq<int>, ghost k: int)
      requires Valid(adj, stack) && stack != [] && HasEdge(adj, stack[|stack| - 1], nb)
      modifies this
      ensures found ==> Lasso(adj, p, k) && stack <= p
      ensures !found ==> Valid(adj, stack) && old(rank).Keys <= rank.Keys && nb in rank
      ensures old(visited) <= visited
      decreases adj.Keys - visited, 1
    {
      found, p, k := false, stack, 0;
      if nb !in visited {
        found, p, k := Dfs(nb, adj, stack);
        assert stack <= stack + [nb];
      } else if nb in inStack {
        k :| 0 <= k < |stack| && stack[k] == nb;
        found := true;
      }
    }
  }

  lemma EmptyStack(adj: Adjacency, visited: set<int>, inStack: set<int>, rank: map<int, nat>)
    requires Consistent(adj, [], visited, inStack, rank)
    ensures visited == rank.Keys
  {
    var stack: seq<int> := [];
    assert forall x :: x in inStack <==> x in stack;
    assert visited == {} + rank.Keys;
  }

  /** The marking search answers whether a cycle is reachable from a listed node. */
  method HasDeadlockCycle(adj: Adjacency, goroutines: seq<int>) returns (found: bool)
    ensures found <==> exists r :: r in goroutines && ReachesCycle(adj, r)
  {
    var search := new Search();
    for k := 0 to |goroutines|
      invariant fresh(search) && search.Valid(adj, [])
      invariant forall j :: 0 <= j < k ==> goroutines[j] in search.rank.Keys
    {
      EmptyStack(adj, search.visited, search.inStack, search.rank);
      if goroutines[k] !in search.visited {
        ghost var p, i;
        found, p, i := search.Dfs(goroutines[k], adj, []);
        if found {
          LassoReaches(adj, p, i);
          assert goroutines[k] in goroutines;
          return;
        }
      }
    }
    forall r | r in goroutines
      ensures !ReachesCycle(adj, r)
    {
      FinishedReachNoCycle(adj, search.rank, r);
    }
    found := false;
  }

  /** On one graph and one list of nodes the two detectors agree. */
  lemma DetectorsAgree(adj: Adjacency, goroutines: seq<int>)
    ensures (exists r :: r in goroutines && ReachesCycle(adj, r))
       <==> (exists r :: r in goroutines && FindCycle(adj, r, []) != [])
  {
    forall r | r in goroutines
      ensures ReachesCycle(adj, r) <==> FindCycle(adj, r, []) != []
    {
      FindCycleExact(adj, r);
    }
  }
}
