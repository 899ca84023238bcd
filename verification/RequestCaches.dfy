/** When cached request groups still describe the goroutines they were computed from. */
module RequestCaches {
  import opened Collections
  import opened EngineExport
  import opened RequestGroups
  import opened Requests

  /** A served goroutine becomes the parent of one that was neither labelled nor served. */
  ghost predicate Recruits(gs: Records, parents: map<int, int>) {
    exists b :: Recruit(gs, parents, b)
  }

  ghost predicate Recruit(gs: Records, parents: map<int, int>, b: int) {
    b in gs && b in parents && gs[b].parent == 0 && !Labelled(gs, b) && !Served(gs, b) && Served(gs, parents[b])
  }

  /** The goroutine is the root one of the groups is named after. */
  ghost predicate Heads(result: seq<RequestGroup>, root: int) {
    exists g :: g in result && g.source == FromStack && g.requestId == StackKey(root)
  }

  /** The new parents put the roots of two groups on one cycle. */
  ghost predicate Tangles(gs: Records, parents: map<int, int>, result: seq<RequestGroup>) {
    exists a, b :: a != b && Heads(result, a) && Heads(result, b) && Tangled(MergeParents(gs, parents), a, b)
  }

  /** No new parent recruits, and none tangles two groups. */
  ghost predicate Harmless(gs: Records, parents: map<int, int>, result: seq<RequestGroup>) {
    !Recruits(gs, parents) && !Tangles(gs, parents, result)
  }

  ghost predicate Tangled(gs: Records, a: int, b: int) {
    DescendsFrom(gs, a, b) && DescendsFrom(gs, b, a)
  }

  // ── What new parents change ────────────────────────────────────────────────

  /** Merging parents only adds links. */
  lemma LinksAdded(gs: Records, parents: map<int, int>)
    requires Keyed(gs)
    ensures Keyed(MergeParents(gs, parents))
    ensures forall id :: Labelled(MergeParents(gs, parents), id) == Labelled(gs, id)
    ensures forall id :: Labelled(gs, id) ==> RequestLabel(MergeParents(gs, parents)[id]) == RequestLabel(gs[id])
    ensures forall id :: Root(MergeParents(gs, parents), id) == Root(gs, id)
    ensures forall a, b :: Child(gs, a, b) ==> Child(MergeParents(gs, parents), a, b)
    ensures forall a, b :: Child(MergeParents(gs, parents), a, b) && !Child(gs, a, b) ==>
      b in parents && parents[b] == a && gs[b].parent == 0
  {
  }

  lemma StillChain(gs: Records, parents: map<int, int>, path: seq<int>)
    requires Keyed(gs) && Chain(gs, {}, path)
    ensures Chain(MergeParents(gs, parents), {}, path)
  {
    LinksAdded(gs, parents);
  }

  lemma StillDescends(gs: Records, parents: map<int, int>, root: int, id: int)
    requires Keyed(gs) && DescendsFrom(gs, root, id)
    ensures DescendsFrom(MergeParents(gs, parents), root, id)
  {
    var path :| ChainBetween(gs, {}, root, id, path);
    StillChain(gs, parents, path);
    assert ChainBetween(MergeParents(gs, parents), {}, root, id, path);
  }

  lemma StillServed(gs: Records, parents: map<int, int>, id: int)
    requires Keyed(gs) && Served(gs, id)
    ensures Served(MergeParents(gs, parents), id)
  {
    LinksAdded(gs, parents);
    var root :| Root(gs, root) && DescendsFrom(gs, root, id);
    StillDescends(gs, parents, root, id);
  }

  /** Without a recruit the same goroutines are served. */
  lemma NoneServedAnew(gs: Records, parents: map<int, int>, id: int)
    requires Keyed(gs) && !Recruits(gs, parents) && Served(MergeParents(gs, parents), id)
    ensures Served(gs, id)
  {
    var merged := MergeParents(gs, parents);
    LinksAdded(gs, parents);
    var root :| Root(merged, root) && DescendsFrom(merged, root, id);
    var path :| ChainBetween(merged, {}, root, id, path);
    var held := set x | x in gs && Served(gs, x);
    ReachesItself(gs, {}, root);
    forall a, b | a in held && Child(merged, a, b) && !Labelled(merged, b)
      ensures b in held
    {
      if Child(gs, a, b) {
        var r :| Root(gs, r) && DescendsFrom(gs, r, a);
        ChildReached(gs, {}, r, a, b);
      } else {
        assert !Recruit(gs, parents, b);
      }
    }
    ClosedHoldsChain(merged, {}, held, path);
  }

  lemma RecruitServed(gs: Records, parents: map<int, int>, b: int)
    requires Keyed(gs) && Recruit(gs, parents, b)
    ensures Served(MergeParents(gs, parents), b)
  {
    var merged := MergeParents(gs, parents);
    LinksAdded(gs, parents);
    StillServed(gs, parents, parents[b]);
    var root :| Root(merged, root) && DescendsFrom(merged, root, parents[b]);
    ReachesEnds(merged, {}, root, parents[b]);
    assert Child(merged, parents[b], b);
    ChildReached(merged, {}, root, parents[b], b);
  }

  // ── Parents are unique ─────────────────────────────────────────────────────

  /** Of two chains to one goroutine the shorter is the end of the longer. */
  lemma {:induction false} ChainsMeet(gs: Records, p: seq<int>, q: seq<int>, k: nat)
    requires Chain(gs, {}, p) && Chain(gs, {}, q) && p[|p| - 1] == q[|q| - 1]
    requires k < |p| && k < |q|
    ensures p[|p| - 1 - k] == q[|q| - 1 - k]
  {
    if k > 0 {
      ChainsMeet(gs, p, q, k - 1);
      assert Child(gs, p[|p| - 1 - k], p[|p| - k]) && Child(gs, q[|q| - 1 - k], q[|q| - k]);
    }
  }

  /** An ancestor under the new parents lies above the old one, or on the old chain. */
  lemma AboveOrBetween(gs: Records, parents: map<int, int>, root: int, q: int, id: int)
    requires Keyed(gs) && DescendsFrom(gs, root, id) && DescendsFrom(MergeParents(gs, parents), q, id)
    ensures DescendsFrom(MergeParents(gs, parents), q, root) || (DescendsFrom(gs, root, q) && DescendsFrom(gs, q, id))
  {
    var merged := MergeParents(gs, parents);
    var p :| ChainBetween(gs, {}, root, id, p);
    var c :| ChainBetween(merged, {}, q, id, c);
    StillChain(gs, parents, p);
    if |c| <= |p| {
      ChainsMeet(merged, p, c, |c| - 1);
      ChainThrough(gs, {}, p, |p| - |c|);
    } else {
      ChainsMeet(merged, p, c, |p| - 1);
      ChainThrough(merged, {}, c, |c| - |p|);
    }
  }

  // ── An order for the new parents ───────────────────────────────────────────

  /** No head stands below an earlier one. */
  ghost predicate TopDownFree(gs: Records, heads: seq<int>) {
    forall i, j :: 0 <= i < j < |heads| ==> !DescendsFrom(gs, heads[i], heads[j])
  }

  ghost predicate Untangled(gs: Records, heads: set<int>) {
    forall a, b :: a in heads && b in heads && a != b ==> !Tangled(gs, a, b)
  }

  /** Some head has no other below it. */
  lemma {:induction false} Lowest(gs: Records, heads: set<int>) returns (low: int)
    requires heads != {} && Untangled(gs, heads)
    ensures low in heads && forall x :: x in heads && x != low ==> !DescendsFrom(gs, low, x)
    decreases heads
  {
    var one := AnyOf(heads);
    var rest := heads - {one};
    if rest == {} {
      return one;
    }
    low := Lowest(gs, rest);
    if DescendsFrom(gs, low, one) {
      forall x | x in rest && DescendsFrom(gs, one, x)
        ensures Tangled(gs, low, one)
      {
        ReachesOn(gs, {}, low, one, x);
      }
      assert !Tangled(gs, low, one);
      low := one;
    }
  }

  lemma {:induction false} LineUp(gs: Records, heads: set<int>) returns (line: seq<int>)
    requires Untangled(gs, heads)
    ensures NoRepeats(line) && (forall x :: x in line <==> x in heads) && TopDownFree(gs, line)
    decreases heads
  {
    if heads == {} {
      return [];
    }
    var low := Lowest(gs, heads);
    var rest := LineUp(gs, heads - {low});
    line := [low] + rest;
    forall x
      ensures x in line <==> x in heads
    {
    }
    forall i, j | 0 <= i < j < |line|
      ensures line[i] != line[j] && !DescendsFrom(gs, line[i], line[j])
    {
      assert line[j] == rest[j - 1] && line[j] in rest;
      if i > 0 {
        assert line[i] == rest[i - 1];
      }
    }
  }

  /** The heads of an order's groups. */
  ghost function HeadsOf(gs: Records, order: seq<int>): set<int> {
    set x | x in gs && First(gs, order, x, x)
  }

  lemma HeadsLead(gs: Records, order: seq<int>, result: seq<RequestGroup>, root: int)
    requires Outcome(gs, order, result)
    ensures Heads(result, root) <==> First(gs, order, root, root)
  {
    FirstRootTakes(gs, order, root, root);
    if Heads(result, root) {
      var g :| g in result && g.source == FromStack && g.requestId == StackKey(root);
      assert ProperGroup(gs, order, g);
      var r :| StackGroup(gs, order, g, r);
      StackKeysDiffer(r, root);
    }
    if Takes(gs, order, root, root) {
      var g :| g in result && StackGroup(gs, order, g, root);
    }
  }

  /** Heads lined up from below, then everybody else. */
  lemma Reorder(gs: Records, parents: map<int, int>, order: seq<int>) returns (line: seq<int>, order': seq<int>)
    requires Keyed(gs) && Untangled(MergeParents(gs, parents), HeadsOf(gs, order))
    ensures VisitsAll(MergeParents(gs, parents), order') && line <= order'
    ensures TopDownFree(MergeParents(gs, parents), line) && forall x :: x in line <==> x in HeadsOf(gs, order)
  {
    var heads := HeadsOf(gs, order);
    line := LineUp(MergeParents(gs, parents), heads);
    var rest := ListOf(gs.Keys - heads);
    order' := line + rest;
    forall i, j | 0 <= i < j < |order'|
      ensures order'[i] != order'[j]
    {
      if i < |line| <= j {
        assert order'[j] in rest && order'[i] in line;
      }
    }
    assert forall x :: x in order' <==> x in line || x in rest;
  }

  /** In the new order each goroutine still has the first root it had. */
  lemma KeepsFirst(gs: Records, parents: map<int, int>, order: seq<int>, line: seq<int>, order': seq<int>,
                   root: int, id: int)
    requires Keyed(gs) && First(gs, order, root, id)
    requires TopDownFree(MergeParents(gs, parents), line) && line <= order'
    requires forall x :: x in line <==> x in HeadsOf(gs, order)
    ensures First(MergeParents(gs, parents), order', root, id)
  {
    var merged := MergeParents(gs, parents);
    LinksAdded(gs, parents);
    FirstOfItself(gs, order, root, id);
    StillDescends(gs, parents, root, id);
    ReachesEnds(gs, {}, root, id);
    assert root in line;
    var i :| 0 <= i < |line| && line[i] == root;
    RootOfItself(merged, root);
    forall j | 0 <= j < i
      ensures !RootOf(merged, line[j], id)
    {
      if RootOf(merged, line[j], id) {
        AboveOrBetween(gs, parents, root, line[j], id);
        assert !DescendsFrom(merged, line[j], root);
        assert line[j] in line && First(gs, order, line[j], line[j]);
        NoHeadBetween(gs, order, root, line[j], id);
      }
    }
    assert FirstAt(merged, order', i, id) && order'[i] == root;
  }

  /** No head stands between a goroutine and its first root. */
  lemma NoHeadBetween(gs: Records, order: seq<int>, root: int, q: int, id: int)
    requires First(gs, order, root, id) && First(gs, order, q, q)
    requires DescendsFrom(gs, root, q) && DescendsFrom(gs, q, id)
    ensures q == root
  {
    var i :| FirstAt(gs, order, i, id) && order[i] == root;
    var j :| FirstAt(gs, order, j, q) && order[j] == q;
    assert RootOf(gs, order[j], id) && RootOf(gs, order[i], q);
  }

  /** Nothing recruited: the first roots under the new order are those under the old. */
  lemma SameFirst(gs: Records, parents: map<int, int>, order: seq<int>, line: seq<int>, order': seq<int>,
                  root: int, id: int)
    requires Keyed(gs) && VisitsAll(gs, order) && !Recruits(gs, parents)
    requires TopDownFree(MergeParents(gs, parents), line) && line <= order'
    requires forall x :: x in line <==> x in HeadsOf(gs, order)
    ensures First(MergeParents(gs, parents), order', root, id) <==> First(gs, order, root, id)
  {
    var merged := MergeParents(gs, parents);
    if First(gs, order, root, id) {
      KeepsFirst(gs, parents, order, line, order', root, id);
    }
    if First(merged, order', root, id) {
      NoneServedAnew(gs, parents, id);
      var r := ServedIsTaken(gs, order, id);
      FirstRootTakes(gs, order, r, id);
      KeepsFirst(gs, parents, order, line, order', r, id);
      FirstUnique(merged, order', root, r, id);
    }
  }

  /** Orders that lead to the same takings lead to the same groups. */
  lemma OutcomeMoves(gs: Records, parents: map<int, int>, order: seq<int>, order': seq<int>, result: seq<RequestGroup>)
    requires Keyed(gs) && Outcome(gs, order, result)
    requires forall r, x :: Takes(MergeParents(gs, parents), order', r, x) <==> Takes(gs, order, r, x)
    ensures Outcome(MergeParents(gs, parents), order', result)
  {
    var merged := MergeParents(gs, parents);
    LinksAdded(gs, parents);
    forall g | g in result
      ensures ProperGroup(merged, order', g) && Ascending(g.ids)
    {
      assert ProperGroup(gs, order, g);
      if LabelGroup(gs, g) {
        assert LabelGroup(merged, g);
      } else {
        var root :| StackGroup(gs, order, g, root);
        assert StackGroup(merged, order', g, root);
      }
    }
    forall root | Takes(merged, order', root, root)
      ensures exists g :: g in result && StackGroup(merged, order', g, root)
    {
      var g :| g in result && StackGroup(gs, order, g, root);
      assert StackGroup(merged, order', g, root);
    }
  }

  lemma StillPossible(gs: Records, parents: map<int, int>, order: seq<int>, result: seq<RequestGroup>)
    requires Keyed(gs) && VisitsAll(gs, order) && Outcome(gs, order, result)
    requires !Recruits(gs, parents) && !Tangles(gs, parents, result)
    ensures PossibleGroups(MergeParents(gs, parents), result)
  {
    var merged := MergeParents(gs, parents);
    forall a, b | a in HeadsOf(gs, order) && b in HeadsOf(gs, order) && a != b
      ensures !Tangled(merged, a, b)
    {
      HeadsLead(gs, order, result, a);
      HeadsLead(gs, order, result, b);
    }
    var line, order' := Reorder(gs, parents, order);
    forall r, x
      ensures Takes(merged, order', r, x) <==> Takes(gs, order, r, x)
    {
      SameFirst(gs, parents, order, line, order', r, x);
      FirstRootTakes(gs, order, r, x);
      FirstRootTakes(merged, order', r, x);
    }
    OutcomeMoves(gs, parents, order, order', result);
  }

  // ── Staleness ──────────────────────────────────────────────────────────────

  lemma RecruitStales(gs: Records, parents: map<int, int>, result: seq<RequestGroup>)
    requires Keyed(gs) && PossibleGroups(gs, result) && Recruits(gs, parents)
    ensures !PossibleGroups(MergeParents(gs, parents), result)
  {
    var b :| Recruit(gs, parents, b);
    RecruitServed(gs, parents, b);
    GroupedMeans(gs, result, b);
    if PossibleGroups(MergeParents(gs, parents), result) {
      GroupedMeans(MergeParents(gs, parents), result, b);
    }
  }

  lemma TangleStales(gs: Records, parents: map<int, int>, result: seq<RequestGroup>)
    requires Keyed(gs) && Tangles(gs, parents, result)
    ensures !PossibleGroups(MergeParents(gs, parents), result)
  {
    var merged := MergeParents(gs, parents);
    var a, b :| a != b && Heads(result, a) && Heads(result, b) && Tangled(merged, a, b);
    forall order | VisitsAll(merged, order)
      ensures !Outcome(merged, order, result)
    {
      if Outcome(merged, order, result) {
        HeadsLead(merged, order, result, a);
        HeadsLead(merged, order, result, b);
        var i :| FirstAt(merged, order, i, a) && order[i] == a;
        var j :| FirstAt(merged, order, j, b) && order[j] == b;
        assert RootOf(merged, order[j], a) && RootOf(merged, order[i], b);
      }
    }
  }

  /**
   New parents do not make the engine recompute its request groups. The groups it has stay a possible
   result exactly when no parent recruits a goroutine into a request and no two groups' roots end up on
   one cycle of parents.
   */
  lemma ParentsStaleIff(gs: Records, parents: map<int, int>, result: seq<RequestGroup>)
    requires Keyed(gs) && PossibleGroups(gs, result)
    ensures PossibleGroups(MergeParents(gs, parents), result) <==> Harmless(gs, parents, result)
  {
    if Recruits(gs, parents) {
      RecruitStales(gs, parents, result);
    } else if Tangles(gs, parents, result) {
      TangleStales(gs, parents, result);
    } else {
      var order :| VisitsAll(gs, order) && Outcome(gs, order, result);
      StillPossible(gs, parents, order, result);
    }
  }
}
