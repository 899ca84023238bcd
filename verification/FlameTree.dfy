/** The call tree of a flamegraph, built in place path by path. */
module FlameTree {
  import opened Collections
  import opened FlamePaths
  import opened Model

  class Node {
    const Name: string
    var Value: int
    var Children: seq<Node>

    constructor (name: string)
      ensures Name == name && Value == 0 && Children == []
    {
      Name, Value, Children := name, 0, [];
    }
  }

  /** The tree as the path of names that leads to each node. */
  type Nodes = map<Path, Node>

  /** What the fields of a node hold. */
  datatype View = View(value: int, children: seq<Node>)

  ghost function Views(nodes: Nodes): map<Path, View>
    reads nodes.Values
  {
    map p | p in nodes :: View(nodes[p].Value, nodes[p].Children)
  }

  /** The children below p: every node one name further, under distinct names. */
  ghost predicate Family(nodes: Nodes, children: seq<Node>, p: Path) {
    && (forall i, j :: 0 <= i < j < |children| ==> children[i].Name != children[j].Name)
    && (forall c :: c in children ==> p + [c.Name] in nodes && nodes[p + [c.Name]] == c)
    && (forall x :: p + [x] in nodes ==> nodes[p + [x]].Name == x && nodes[p + [x]] in children)
  }

  /** No node is at two paths. */
  ghost predicate Injective(nodes: Nodes) {
    forall p, q :: p in nodes && q in nodes && nodes[p] == nodes[q] ==> p == q
  }

  /** There is a node at exactly the paths some path goes through, and at the root. */
  ghost predicate Spans(nodes: Nodes, paths: seq<Path>) {
    forall p :: p in nodes <==> p == [] || Reached(paths, p)
  }

  /** The tree of a list of paths: each node counts the paths through it. */
  ghost predicate Tree(nodes: Nodes, views: map<Path, View>, paths: seq<Path>) {
    && nodes.Keys == views.Keys && Injective(nodes) && Spans(nodes, paths)
    && (forall p :: p in nodes ==> views[p].value == Count(paths, p))
    && (forall p :: p in nodes ==> Family(nodes, views[p].children, p))
  }

  // ── One step down ──────────────────────────────────────────────────────────

  lemma ChildCounts(nodes: Nodes, views: map<Path, View>, paths: seq<Path>, pre: Path, x: string)
    requires Tree(nodes, views, paths + [pre]) && pre + [x] in nodes
    ensures var at := pre + [x];
      Tree(nodes, views[at := views[at].(value := views[at].value + 1)], paths + [at])
  {
    forall p
      ensures Count(paths + [pre + [x]], p) == Count(paths + [pre], p) + (if p == pre + [x] then 1 else 0)
      ensures Reached(paths + [pre + [x]], p) <==> Reached(paths + [pre], p) || p == pre + [x]
    {
      CountLonger(paths, pre, x, p);
    }
  }

  /** Nothing lies below a path without a node. */
  lemma NothingBelow(nodes: Nodes, paths: seq<Path>, p: Path, y: string)
    requires Spans(nodes, paths) && p != [] && p !in nodes
    ensures p + [y] !in nodes
  {
  }

  lemma FamilyGrows(nodes: Nodes, children: seq<Node>, pre: Path, x: string, child: Node)
    requires Family(nodes, children, pre) && pre + [x] !in nodes && child.Name == x
    ensures Family(nodes[pre + [x] := child], children + [child], pre)
  {
    var grown, more := nodes[pre + [x] := child], children + [child];
    forall i | 0 <= i < |children|
      ensures children[i].Name != x
    {
      assert children[i] in children;
    }
    forall c | c in more
      ensures pre + [c.Name] in grown && grown[pre + [c.Name]] == c
    {
      if c in children {
        assert pre + [c.Name] in nodes;
      }
    }
    forall y | pre + [y] in grown
      ensures grown[pre + [y]].Name == y && grown[pre + [y]] in more
    {
      assert (pre + [y])[|pre|] == y && (pre + [x])[|pre|] == x;
      assert child == more[|children|];
    }
  }

  lemma OtherFamily(nodes: Nodes, children: seq<Node>, p: Path, pre: Path, x: string, child: Node)
    requires Family(nodes, children, p) && p != pre
    ensures Family(nodes[pre + [x] := child], children, p) || pre + [x] in nodes
  {
    forall y
      ensures p + [y] != pre + [x]
    {
      assert (p + [y])[..|p|] == p && (pre + [x])[..|pre|] == pre;
    }
  }

  lemma FamilyAfter(nodes: Nodes, views: map<Path, View>, paths: seq<Path>, pre: Path, x: string, child: Node, p: Path)
    requires Tree(nodes, views, paths) && pre in nodes && pre + [x] !in nodes && child.Name == x
    requires p in nodes || p == pre + [x]
    ensures var at := pre + [x];
      Family(nodes[at := child],
             if p == at then [] else if p == pre then views[pre].children + [child] else views[p].children, p)
  {
    var at := pre + [x];
    if p == at {
      forall y
        ensures at + [y] !in nodes[at := child]
      {
        NothingBelow(nodes, paths, at, y);
      }
    } else if p == pre {
      FamilyGrows(nodes, views[pre].children, pre, x, child);
    } else {
      OtherFamily(nodes, views[p].children, p, pre, x, child);
    }
  }

  lemma ChildAdded(nodes: Nodes, views: map<Path, View>, paths: seq<Path>, pre: Path, x: string, child: Node)
    requires Tree(nodes, views, paths + [pre]) && pre in nodes && pre + [x] !in nodes
    requires child !in nodes.Values && child.Name == x
    ensures var at := pre + [x];
      Tree(nodes[at := child], views[pre := views[pre].(children := views[pre].children + [child])][at := View(1, [])],
           paths + [at])
  {
    var at := pre + [x];
    var grown := nodes[at := child];
    var views' := views[pre := views[pre].(children := views[pre].children + [child])][at := View(1, [])];
    forall p
      ensures Count(paths + [at], p) == Count(paths + [pre], p) + (if p == at then 1 else 0)
      ensures Reached(paths + [at], p) <==> Reached(paths + [pre], p) || p == at
    {
      CountLonger(paths, pre, x, p);
    }
    CountReached(paths + [pre], at);
    forall p | p in grown
      ensures Family(grown, views'[p].children, p)
    {
      FamilyAfter(nodes, views, paths + [pre], pre, x, child, p);
    }
    GrownInjective(nodes, at, child);
  }

  lemma GrownInjective(nodes: Nodes, at: Path, child: Node)
    requires Injective(nodes) && child !in nodes.Values
    ensures Injective(nodes[at := child])
  {
  }

  method GetOrCreateChild(parent: Node, name: string) returns (child: Node, ghost found: bool)
    modifies parent`Children
    ensures found ==> child in parent.Children && child.Name == name && parent.Children == old(parent.Children)
    ensures !found ==> fresh(child) && child.Name == name && child.Value == 0 && child.Children == []
    ensures !found ==> parent.Children == old(parent.Children) + [child]
    ensures !found ==> forall c :: c in old(parent.Children) ==> c.Name != name
  {
    for i := 0 to |parent.Children|
      invariant forall j :: 0 <= j < i ==> parent.Children[j].Name != name
    {
      if parent.Children[i].Name == name {
        return parent.Children[i], true;
      }
    }
    child := new Node(name);
    parent.Children := parent.Children + [child];
    found := false;
  }

  /** The nodes hold what they did, except at one path. */
  ghost predicate HeldBut(nodes: Nodes, views: map<Path, View>, at: Path)
    reads nodes.Values
  {
    && nodes.Keys == views.Keys
    && forall p :: p in nodes && p != at ==> View(nodes[p].Value, nodes[p].Children) == views[p]
  }

  lemma ViewsCounted(nodes: Nodes, views: map<Path, View>, at: Path)
    requires at in nodes && HeldBut(nodes, views, at)
    requires nodes[at].Value == views[at].value + 1 && nodes[at].Children == views[at].children
    ensures Views(nodes) == views[at := views[at].(value := views[at].value + 1)]
  {
  }

  lemma ViewsAdded(nodes: Nodes, views: map<Path, View>, pre: Path, at: Path, child: Node)
    requires pre in nodes && at !in nodes && HeldBut(nodes, views, pre)
    requires nodes[pre].Value == views[pre].value && nodes[pre].Children == views[pre].children + [child]
    requires child.Value == 1 && child.Children == []
    ensures Views(nodes[at := child])
         == views[pre := views[pre].(children := views[pre].children + [child])][at := View(1, [])]
  {
  }

  lemma OneNodeEach(nodes: Nodes, p: Path)
    requires Injective(nodes) && p in nodes
    ensures nodes[p] in nodes.Values
    ensures forall q :: q in nodes && q != p ==> nodes[q] != nodes[p]
  {
  }

  lemma FoundChild(nodes: Nodes, views: map<Path, View>, paths: seq<Path>, p: Path, child: Node)
    requires Tree(nodes, views, paths) && p in nodes && child in views[p].children
    ensures p + [child.Name] in nodes && nodes[p + [child.Name]] == child
  {
  }

  lemma MissingChild(nodes: Nodes, views: map<Path, View>, paths: seq<Path>, p: Path, name: string)
    requires Tree(nodes, views, paths) && p in nodes && forall c :: c in views[p].children ==> c.Name != name
    ensures p + [name] !in nodes
  {
  }

  /** One frame deeper: the child of that name, new if there was none, counts one path more. */
  method Descend(cur: Node, name: string, ghost nodes: Nodes, ghost paths: seq<Path>, ghost pre: Path)
    returns (child: Node, ghost grown: Nodes)
    requires pre in nodes && nodes[pre] == cur && Tree(nodes, Views(nodes), paths + [pre])
    modifies nodes.Values
    ensures pre + [name] in grown && grown[pre + [name]] == child && Tree(grown, Views(grown), paths + [pre + [name]])
    ensures forall p :: p in nodes ==> p in grown && grown[p] == nodes[p]
    ensures forall p :: p in grown ==> p in nodes || fresh(grown[p])
  {
    ghost var views, at := Views(nodes), pre + [name];
    OneNodeEach(nodes, pre);
    ghost var found;
    child, found := GetOrCreateChild(cur, name);
    if found {
      FoundChild(nodes, views, paths + [pre], pre, child);
      OneNodeEach(nodes, at);
    } else {
      MissingChild(nodes, views, paths + [pre], pre, name);
    }
    child.Value := child.Value + 1;
    if found {
      grown := nodes;
      ViewsCounted(nodes, views, at);
      ChildCounts(nodes, views, paths, pre, name);
    } else {
      grown := nodes[at := child];
      ViewsAdded(nodes, views, pre, at, child);
      ChildAdded(nodes, views, paths, pre, name, child);
    }
  }

  // ── The whole tree ─────────────────────────────────────────────────────────

  lemma RootCounts(nodes: Nodes, views: map<Path, View>, paths: seq<Path>)
    requires Tree(nodes, views, paths)
    ensures Tree(nodes, views[[] := views[[]].(value := views[[]].value + 1)], paths + [[]])
  {
    forall p
      ensures Count(paths + [[]], p) == Count(paths, p) + (if p == [] then 1 else 0)
      ensures Reached(paths + [[]], p) <==> Reached(paths, p) || p == []
    {
      CountBegun(paths, p);
    }
  }

  method CountRoot(root: Node, ghost nodes: Nodes, ghost paths: seq<Path>)
    requires Tree(nodes, Views(nodes), paths) && nodes[[]] == root
    modifies root`Value
    ensures Tree(nodes, Views(nodes), paths + [[]])
  {
    ghost var views := Views(nodes);
    OneNodeEach(nodes, []);
    root.Value := root.Value + 1;
    ViewsCounted(nodes, views, []);
    RootCounts(nodes, views, paths);
  }

  /** Down the frames of a stack, outermost first, counting one path more at each. */
  method Walk(root: Node, frames: seq<StackFrame>, depth: nat, ghost nodes: Nodes, ghost paths: seq<Path>)
    returns (ghost grown: Nodes)
    requires depth <= |frames| && Tree(nodes, Views(nodes), paths + [[]]) && nodes[[]] == root
    modifies nodes.Values
    ensures Tree(grown, Views(grown), paths + [Names(frames[..depth])]) && [] in grown && grown[[]] == root
    ensures forall p :: p in grown ==> (p in nodes && grown[p] == nodes[p]) || fresh(grown[p])
  {
    var cur, i := root, depth;
    grown := nodes;
    assert frames[depth..depth] == [];
    while i > 0
      invariant 0 <= i <= depth && Tree(grown, Views(grown), paths + [Names(frames[i..depth])])
      invariant [] in grown && grown[[]] == root
      invariant Names(frames[i..depth]) in grown && grown[Names(frames[i..depth])] == cur
      invariant forall p :: p in grown ==> (p in nodes && grown[p] == nodes[p]) || fresh(grown[p])
    {
      i := i - 1;
      var name := frames[i].func;
      NamesStep(frames, i, depth);
      if name != "" {
        cur, grown := Descend(cur, name, grown, paths, Names(frames[i + 1..depth]));
      }
    }
    assert frames[0..depth] == frames[..depth];
  }

  // ── Order among siblings ───────────────────────────────────────────────────

  /** Siblings with more paths through them come first. */
  ghost predicate Falling(paths: seq<Path>, p: Path, children: seq<Node>) {
    forall i, j :: 0 <= i < j < |children| ==>
      Count(paths, p + [children[i].Name]) >= Count(paths, p + [children[j].Name])
  }

  ghost predicate Descending(s: seq<Node>)
    reads s
  {
    forall i, j :: 0 <= i < j < |s| ==> s[i].Value >= s[j].Value
  }

  lemma InsertDescends(s: seq<Node>, c: Node, k: nat)
    requires Descending(s) && k <= |s|
    requires forall q :: k <= q < |s| ==> c.Value > s[q].Value
    requires k > 0 ==> c.Value <= s[k - 1].Value
    ensures Descending(s[..k] + [c] + s[k..])
  {
  }

  lemma InsertedOne(s: seq<Node>, c: Node, k: nat)
    requires k <= |s|
    ensures multiset(s[..k] + [c] + s[k..]) == multiset(s) + multiset{c}
  {
    assert s == s[..k] + s[k..];
  }

  method SortByValue(children: seq<Node>) returns (sorted: seq<Node>)
    ensures multiset(sorted) == multiset(children) && Descending(sorted)
  {
    sorted := [];
    for i := 0 to |children|
      invariant multiset(sorted) == multiset(children[..i]) && Descending(sorted)
    {
      var c, k := children[i], |sorted|;
      while k > 0 && c.Value > sorted[k - 1].Value
        invariant 0 <= k <= |sorted| && forall q :: k <= q < |sorted| ==> c.Value > sorted[q].Value
      {
        k := k - 1;
      }
      InsertDescends(sorted, c, k);
      InsertedOne(sorted, c, k);
      assert children[..i + 1] == children[..i] + [c];
      sorted := sorted[..k] + [c] + sorted[k..];
    }
    assert children[..|children|] == children;
  }

  lemma FamilyPermutes(nodes: Nodes, children: seq<Node>, sorted: seq<Node>, p: Path)
    requires Family(nodes, children, p) && multiset(children) == multiset(sorted)
    ensures Family(nodes, sorted, p)
  {
    ghost var name := (c: Node) => c.Name;
    assert DistinctBy(name, children);
    DistinctPermutes(name, children, sorted);
    assert forall i, j :: 0 <= i < j < |sorted| ==> name(sorted[i]) != name(sorted[j]);
    forall c: Node
      ensures c in sorted <==> c in children
    {
      assert c in multiset(sorted) <==> c in multiset(children);
    }
  }

  lemma TreePermutes(nodes: Nodes, views: map<Path, View>, paths: seq<Path>, p: Path, sorted: seq<Node>)
    requires Tree(nodes, views, paths) && p in nodes && multiset(views[p].children) == multiset(sorted)
    ensures Tree(nodes, views[p := views[p].(children := sorted)], paths)
  {
    FamilyPermutes(nodes, views[p].children, sorted, p);
  }

  lemma ValuesFall(nodes: Nodes, views: map<Path, View>, paths: seq<Path>, p: Path, sorted: seq<Node>)
    requires Tree(nodes, views, paths) && p in nodes && Family(nodes, sorted, p) && views == Views(nodes)
    requires Descending(sorted)
    ensures Falling(paths, p, sorted)
  {
  }

  /** Everything at and below p is in order. */
  ghost predicate InOrder(nodes: Nodes, views: map<Path, View>, paths: seq<Path>, p: Path)
    requires nodes.Keys == views.Keys
  {
    forall q :: q in nodes && p <= q ==> Falling(paths, q, views[q].children)
  }

  ghost function Below(nodes: Nodes, p: Path): set<Path> {
    set q | q in nodes && p <= q
  }

  /** The views agree outside what is at and below p. */
  ghost predicate SameElsewhere(before: map<Path, View>, now: map<Path, View>, p: Path) {
    before.Keys == now.Keys && forall q :: q in now && !(p <= q) ==> now[q] == before[q]
  }

  lemma BelowChild(nodes: Nodes, p: Path, x: string)
    requires p in nodes
    ensures Below(nodes, p + [x]) < Below(nodes, p)
  {
    assert p in Below(nodes, p) && p !in Below(nodes, p + [x]);
    forall q | q in Below(nodes, p + [x])
      ensures q in Below(nodes, p)
    {
      assert p <= p + [x] <= q;
    }
  }

  /** All the children before i, and what is below them, are in order. */
  ghost predicate SortedUpTo(nodes: Nodes, views: map<Path, View>, paths: seq<Path>, p: Path, children: seq<Node>,
                             i: int)
    requires nodes.Keys == views.Keys && i <= |children|
  {
    forall j :: 0 <= j < i ==> InOrder(nodes, views, paths, p + [children[j].Name])
  }

  lemma NextChild(nodes: Nodes, before: map<Path, View>, now: map<Path, View>, paths: seq<Path>, p: Path,
                  children: seq<Node>, i: nat)
    requires nodes.Keys == before.Keys == now.Keys && i < |children| && Family(nodes, children, p)
    requires SortedUpTo(nodes, before, paths, p, children, i)
    requires SameElsewhere(before, now, p + [children[i].Name]) && InOrder(nodes, now, paths, p + [children[i].Name])
    ensures SortedUpTo(nodes, now, paths, p, children, i + 1)
  {
    forall j | 0 <= j < i
      ensures InOrder(nodes, now, paths, p + [children[j].Name])
    {
      var a, b := p + [children[j].Name], p + [children[i].Name];
      assert a[|p|] != b[|p|];
      forall q | q in nodes && a <= q
        ensures Falling(paths, q, now[q].children)
      {
        assert q[|p|] == a[|p|];
      }
    }
  }

  /** A longer path goes on through one of the children. */
  lemma ChildToward(nodes: Nodes, views: map<Path, View>, paths: seq<Path>, p: Path, q: Path) returns (j: nat)
    requires Tree(nodes, views, paths) && p in nodes && p < q && (q in nodes || q in paths)
    ensures j < |views[p].children| && views[p].children[j].Name == q[|p|] && p + [q[|p|]] <= q
  {
    var at := p + [q[|p|]];
    assert at == q[..|p| + 1];
    var r :| r in paths && q <= r;
    assert at <= q <= r;
    assert Reached(paths, at);
    j := ChildAt(nodes, views[p].children, p, q[|p|]);
  }

  lemma ChildAt(nodes: Nodes, children: seq<Node>, p: Path, x: string) returns (j: nat)
    requires Family(nodes, children, p) && p + [x] in nodes
    ensures j < |children| && children[j].Name == x
  {
    j :| 0 <= j < |children| && children[j] == nodes[p + [x]];
  }

  lemma AllInOrder(nodes: Nodes, views: map<Path, View>, paths: seq<Path>, p: Path, children: seq<Node>)
    requires Tree(nodes, views, paths) && p in nodes && views[p].children == children
    requires SortedUpTo(nodes, views, paths, p, children, |children|) && Falling(paths, p, children)
    ensures InOrder(nodes, views, paths, p)
  {
    forall q | q in nodes && p <= q
      ensures Falling(paths, q, views[q].children)
    {
      if q != p {
        var j := ChildToward(nodes, views, paths, p, q);
        assert InOrder(nodes, views, paths, p + [children[j].Name]);
      }
    }
  }

  /** The children of every node at and below p are put in order; nothing else changes. */
  method SortChildrenDeep(n: Node, ghost nodes: Nodes, ghost paths: seq<Path>, ghost p: Path)
    requires p in nodes && nodes[p] == n && Tree(nodes, Views(nodes), paths)
    modifies nodes.Values
    ensures Tree(nodes, Views(nodes), paths)
    ensures InOrder(nodes, Views(nodes), paths, p)
    ensures SameElsewhere(old(Views(nodes)), Views(nodes), p)
    decreases Below(nodes, p)
  {
    var children := SortByValue(n.Children);
    SortOne(n, children, nodes, paths, p);
    ghost var start := Views(nodes);
    for i := 0 to |children|
      invariant Tree(nodes, Views(nodes), paths) && Views(nodes)[p].children == children
      invariant SameElsewhere(start, Views(nodes), p) && SortedUpTo(nodes, Views(nodes), paths, p, children, i)
    {
      ghost var before, at := Views(nodes), p + [children[i].Name];
      FoundChild(nodes, before, paths, p, children[i]);
      BelowChild(nodes, p, children[i].Name);
      SortChildrenDeep(children[i], nodes, paths, at);
      assert Family(nodes, children, p);
      NextChild(nodes, before, Views(nodes), paths, p, children, i);
    }
    AllInOrder(nodes, Views(nodes), paths, p, children);
  }

  method SortOne(n: Node, children: seq<Node>, ghost nodes: Nodes, ghost paths: seq<Path>, ghost p: Path)
    requires p in nodes && nodes[p] == n && Tree(nodes, Views(nodes), paths)
    requires multiset(children) == multiset(n.Children) && Descending(children)
    modifies n`Children
    ensures Tree(nodes, Views(nodes), paths) && n.Children == children && Falling(paths, p, children)
    ensures SameElsewhere(old(Views(nodes)), Views(nodes), p)
  {
    ghost var views := Views(nodes);
    OneNodeEach(nodes, p);
    TreePermutes(nodes, views, paths, p, children);
    FamilyPermutes(nodes, n.Children, children, p);
    ValuesFall(nodes, views, paths, p, children);
    n.Children := children;
    assert Views(nodes) == views[p := views[p].(children := children)];
  }

  // ── BuildFlamegraph ────────────────────────────────────────────────────────

  ghost function ValueBelow(views: map<Path, View>, p: Path): Node -> int {
    (c: Node) => if p + [c.Name] in views then views[p + [c.Name]].value else 0
  }

  /** What a node counts beyond its children is the goroutines whose path ends there. */
  lemma NodeMinusChildren(nodes: Nodes, views: map<Path, View>, paths: seq<Path>, p: Path)
    requires Tree(nodes, views, paths) && p in nodes
    ensures views[p].value - Total(ValueBelow(views, p), views[p].children) == Exact(paths, p)
  {
    var children := views[p].children;
    var names := NamesOf(children);
    NamesApart(nodes, children, p);
    forall q | q in paths && p < q
      ensures q[|p|] in names
    {
      var j := ChildToward(nodes, views, paths, p, q);
      assert names[j] == q[|p|];
    }
    ThroughChildren(paths, p, names);
    SumOverNames(nodes, views, paths, p, children);
  }

  lemma NamesApart(nodes: Nodes, children: seq<Node>, p: Path)
    requires Family(nodes, children, p)
    ensures NoRepeats(NamesOf(children)) && forall c :: c in children ==> p + [c.Name] in nodes
  {
  }

  function NamesOf(children: seq<Node>): seq<string> {
    seq(|children|, i requires 0 <= i < |children| => children[i].Name)
  }

  lemma {:induction false} SumOverNames(nodes: Nodes, views: map<Path, View>, paths: seq<Path>, p: Path,
                                        children: seq<Node>)
    requires Tree(nodes, views, paths) && forall c :: c in children ==> p + [c.Name] in nodes
    ensures Total(ValueBelow(views, p), children) == Total(FlamePaths.CountBelow(paths, p), NamesOf(children))
  {
    if children != [] {
      var rest := children[..|children| - 1];
      assert children[|children| - 1] in children && forall c :: c in rest ==> c in children;
      SumOverNames(nodes, views, paths, p, rest);
      assert NamesOf(children)[..|rest|] == NamesOf(rest);
    }
  }

  /** The path of one goroutine. A goroutine without a stack counts at the root only. */
  method AddGoroutine(root: Node, g: Goroutine, maxDepth: int, ghost nodes: Nodes, ghost paths: seq<Path>)
    returns (ghost grown: Nodes)
    requires Tree(nodes, Views(nodes), paths) && [] in nodes && nodes[[]] == root
    modifies nodes.Values
    ensures Tree(grown, Views(grown), paths + [PathOf(g, maxDepth)]) && [] in grown && grown[[]] == root
    ensures forall p :: p in grown ==> (p in nodes && grown[p] == nodes[p]) || fresh(grown[p])
  {
    OneNodeEach(nodes, []);
    CountRoot(root, nodes, paths);
    grown := nodes;
    if g.lastStack.None? || |g.lastStack.value.frames| == 0 {
      return;
    }
    var frames := g.lastStack.value.frames;
    var depth := |frames|;
    if maxDepth > 0 && depth > maxDepth {
      depth := maxDepth;
    }
    grown := Walk(root, frames, depth, nodes, paths);
  }

  lemma RootAlone(root: Node)
    requires root.Value == 0 && root.Children == []
    ensures Tree(map[[] := root], Views(map[[] := root]), [])
  {
  }

  /** The paths of the selected goroutines one by one. */
  method AddSelected(root: Node, goroutines: seq<Goroutine>, stateFilter: State, maxDepth: int)
    returns (total: nat, ghost nodes: Nodes)
    requires root.Value == 0 && root.Children == []
    modifies root
    ensures [] in nodes && nodes[[]] == root && forall p :: p in nodes ==> nodes[p] == root || fresh(nodes[p])
    ensures Tree(nodes, Views(nodes), Paths(goroutines, stateFilter, maxDepth))
    ensures total == |Paths(goroutines, stateFilter, maxDepth)|
  {
    total := 0;
    nodes := map[[] := root];
    RootAlone(root);
    ghost var paths: seq<Path> := [];
    for i := 0 to |goroutines|
      invariant [] in nodes && nodes[[]] == root && Tree(nodes, Views(nodes), paths)
      invariant paths == Paths(goroutines[..i], stateFilter, maxDepth) && total == |paths|
      invariant forall p :: p in nodes ==> nodes[p] == root || fresh(nodes[p])
    {
      var g := goroutines[i];
      PathsStep(goroutines, i, stateFilter, maxDepth);
      if !(stateFilter != Unset && g.state != stateFilter) {
        total := total + 1;
        nodes := AddGoroutine(root, g, maxDepth, nodes, paths);
        paths := paths + [PathOf(g, maxDepth)];
      }
    }
    assert goroutines[..|goroutines|] == goroutines;
  }

  /**
   The tree of the selected goroutines' paths: one node for every prefix of a path, holding how many
   paths go through it, siblings in falling order.
   */
  method BuildFlamegraph(goroutines: seq<Goroutine>, stateFilter: State, maxDepth: int)
    returns (root: Node, total: nat, ghost nodes: Nodes)
    ensures [] in nodes && nodes[[]] == root && root.Name == "root"
    ensures Tree(nodes, Views(nodes), Paths(goroutines, stateFilter, maxDepth))
    ensures InOrder(nodes, Views(nodes), Paths(goroutines, stateFilter, maxDepth), [])
    ensures total == root.Value == |Paths(goroutines, stateFilter, maxDepth)|
  {
    root := new Node("root");
    total, nodes := AddSelected(root, goroutines, stateFilter, maxDepth);
    SortChildrenDeep(root, nodes, Paths(goroutines, stateFilter, maxDepth), []);
    CountAll(Paths(goroutines, stateFilter, maxDepth));
    assert Views(nodes)[[]].value == root.Value;
  }
}
