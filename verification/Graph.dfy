/** Directed graphs as adjacency maps, walks and cycles. */
module Graph {
  import opened Collections

  type Adjacency = map<int, seq<int>>

  function Successors(adj: Adjacency, x: int): seq<int> {
    if x in adj then adj[x] else []
  }

  predicate HasEdge(adj: Adjacency, a: int, b: int) {
    b in Successors(adj, a)
  }

  ghost predicate Walk(adj: Adjacency, w: seq<int>) {
    w != [] && forall i :: 0 <= i < |w| - 1 ==> HasEdge(adj, w[i], w[i + 1])
  }

  ghost predicate Cycle(adj: Adjacency, c: seq<int>) {
    Walk(adj, c) && HasEdge(adj, c[|c| - 1], c[0])
  }

  /** Some cycle can be reached from x. */
  ghost predicate ReachesCycle(adj: Adjacency, x: int) {
    exists w, c :: Walk(adj, w) && w[0] == x && Cycle(adj, c) && w[|w| - 1] == c[0]
  }

  /** A walk whose last node has an edge back to its node i. */
  ghost predicate Lasso(adj: Adjacency, p: seq<int>, i: int) {
    0 <= i < |p| && Walk(adj, p) && HasEdge(adj, p[|p| - 1], p[i])
  }

  lemma LassoReaches(adj: Adjacency, p: seq<int>, i: int)
    requires Lasso(adj, p, i)
    ensures Cycle(adj, p[i..]) && ReachesCycle(adj, p[0])
  {
    assert Walk(adj, p[i..]);
    assert Walk(adj, p[..i + 1]);
  }

  /** A reachable cycle gives a walk that comes back to a node. */
  lemma CycleRevisits(adj: Adjacency, x: int) returns (w: seq<int>)
    requires ReachesCycle(adj, x)
    ensures Walk(adj, w) && w[0] == x && !NoRepeats(w)
  {
    var v, c :| Walk(adj, v) && v[0] == x && Cycle(adj, c) && v[|v| - 1] == c[0];
    w := v + c[1..] + [c[0]];
    forall i | 0 <= i < |w| - 1
      ensures HasEdge(adj, w[i], w[i + 1])
    {
      if i < |v| - 1 {
        assert w[i] == v[i] && w[i + 1] == v[i + 1];
      } else if i < |w| - 2 {
        var k := i - (|v| - 1);
        assert w[i] == c[k] && w[i + 1] == c[k + 1];
      } else {
        assert w[i] == c[|c| - 1] && w[i + 1] == c[0];
      }
    }
    assert w[|v| - 1] == c[0] == w[|w| - 1];
  }
}
