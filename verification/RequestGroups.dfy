/** The request groups an order of iteration leads to, and the code that follows some order. */
module RequestGroups {
  import opened Collections
  import opened CycleKeys
  import opened Requests

  // ── What an order of iteration leads to ────────────────────────────────────

  /** The goroutines taken once those of the order have been visited: each root takes what it reaches by then. */
  ghost function Taken(gs: Records, order: seq<int>): set<int> {
    if order == [] then {}
    else
      var before, root := Taken(gs, order[..|order| - 1]), order[|order| - 1];
      if Root(gs, root) && root !in before then before + (set x | x in gs && Reaches(gs, before, root, x)) else before
  }

  /** The root takes the goroutine when the order gets to it. */
  ghost predicate Takes(gs: Records, order: seq<int>, root: int, id: int) {
    order != []
    && (Takes(gs, order[..|order| - 1], root, id)
        || (root == order[|order| - 1] && Root(gs, root)
            && root !in Taken(gs, order[..|order| - 1]) && Reaches(gs, Taken(gs, order[..|order| - 1]), root, id)))
  }

  /** Every goroutine, once. */
  ghost predicate VisitsAll(gs: Records, order: seq<int>) {
    NoRepeats(order) && forall id :: id in order <==> id in gs
  }

  ghost predicate LabelGroup(gs: Records, g: RequestGroup) {
    && g.requestId != "" && g.source == FromLabel && NoRepeats(g.ids)
    && forall id :: id in g.ids <==> Labelled(gs, id) && RequestLabel(gs[id]) == g.requestId
  }

  ghost predicate StackGroup(gs: Records, order: seq<int>, g: RequestGroup, root: int) {
    && Takes(gs, order, root, root) && g.requestId == StackKey(root) && g.source == FromStack && NoRepeats(g.ids)
    && forall id :: id in g.ids <==> Takes(gs, order, root, id)
  }

  ghost predicate ProperGroup(gs: Records, order: seq<int>, g: RequestGroup) {
    LabelGroup(gs, g) || exists root :: StackGroup(gs, order, g, root)
  }

  ghost predicate Ascending(ids: seq<int>) {
    forall i, j :: 0 <= i < j < |ids| ==> ids[i] < ids[j]
  }

  ghost predicate DistinctRequests(result: seq<RequestGroup>) {
    forall i, j :: 0 <= i < j < |result| ==> result[i].requestId != result[j].requestId
  }

  /** The groups of an order: one for each root that takes itself, one for each label no such root has as its key. */
  ghost predicate Outcome(gs: Records, order: seq<int>, result: seq<RequestGroup>) {
    && DistinctRequests(result)
    && (forall g :: g in result ==> ProperGroup(gs, order, g) && Ascending(g.ids))
    && (forall root :: Takes(gs, order, root, root) ==> exists g :: g in result && StackGroup(gs, order, g, root))
    && (forall id :: Labelled(gs, id) ==> exists g :: g in result && g.requestId == RequestLabel(gs[id]))
  }

  /** The groups are those of some order. */
  ghost predicate PossibleGroups(gs: Records, result: seq<RequestGroup>) {
    exists order :: VisitsAll(gs, order) && Outcome(gs, order, result)
  }

  // ── Each goroutine goes to the first root it descends from ─────────────────

  ghost predicate RootOf(gs: Records, root: int, id: int) {
    Root(gs, root) && DescendsFrom(gs, root, id)
  }

  /** Of the roots the goroutine descends from, the one at index i comes first. */
  ghost predicate FirstAt(gs: Records, order: seq<int>, i: int, id: int) {
    0 <= i < |order| && RootOf(gs, order[i], id) && forall j :: 0 <= j < i ==> !RootOf(gs, order[j], id)
  }

  ghost predicate First(gs: Records, order: seq<int>, root: int, id: int) {
    exists i :: FirstAt(gs, order, i, id) && order[i] == root
  }

  lemma RootOfItself(gs: Records, root: int)
    requires Root(gs, root)
    ensures RootOf(gs, root, root)
  {
    ReachesItself(gs, {}, root);
  }

  lemma RootOfOn(gs: Records, q: int, root: int, id: int)
    requires RootOf(gs, q, root) && DescendsFrom(gs, root, id)
    ensures RootOf(gs, q, id)
  {
    ReachesOn(gs, {}, q, root, id);
  }

  lemma ReachesDescends(gs: Records, taken: set<int>, a: int, b: int)
    requires Reaches(gs, taken, a, b)
    ensures DescendsFrom(gs, a, b)
  {
    var path :| ChainBetween(gs, taken, a, b, path);
    assert ChainBetween(gs, {}, a, b, path);
  }

  /** A set that holds the descendants of its members bars the way only to its own. */
  lemma DescendsAround(gs: Records, taken: set<int>, a: int, b: int)
    requires DescendsFrom(gs, a, b) && b !in taken
    requires forall x, y :: x in taken && DescendsFrom(gs, x, y) ==> y in taken
    ensures Reaches(gs, taken, a, b)
  {
    var path :| ChainBetween(gs, {}, a, b, path);
    forall i | 0 <= i < |path|
      ensures path[i] !in taken
    {
      ChainThrough(gs, {}, path, i);
    }
    assert ChainBetween(gs, taken, a, b, path);
  }

  ghost predicate SomeRoot(gs: Records, order: seq<int>, id: int) {
    exists j :: 0 <= j < |order| && RootOf(gs, order[j], id)
  }

  lemma SomeRootSnoc(gs: Records, order: seq<int>, id: int)
    requires order != []
    ensures SomeRoot(gs, order, id) <==> SomeRoot(gs, order[..|order| - 1], id) || RootOf(gs, order[|order| - 1], id)
  {
    var rest := order[..|order| - 1];
    if SomeRoot(gs, rest, id) {
      var j :| 0 <= j < |rest| && RootOf(gs, rest[j], id);
      assert RootOf(gs, order[j], id);
    }
  }

  /** What is taken is what descends from a root of the order. */
  lemma {:induction false} TakenMeans(gs: Records, order: seq<int>)
    ensures forall id :: id in Taken(gs, order) <==> SomeRoot(gs, order, id)
  {
    if order != [] {
      var rest, root := order[..|order| - 1], order[|order| - 1];
      TakenMeans(gs, rest);
      forall id
        ensures id in Taken(gs, order) <==> SomeRoot(gs, order, id)
      {
        SomeRootSnoc(gs, order, id);
        TakenStep(gs, rest, root, id);
      }
    }
  }

  lemma TakenClosed(gs: Records, order: seq<int>)
    requires forall id :: id in Taken(gs, order) <==> SomeRoot(gs, order, id)
    ensures forall x, y :: x in Taken(gs, order) && DescendsFrom(gs, x, y) ==> y in Taken(gs, order)
  {
    forall x, y | x in Taken(gs, order) && DescendsFrom(gs, x, y)
      ensures SomeRoot(gs, order, y)
    {
      var j :| 0 <= j < |order| && RootOf(gs, order[j], x);
      RootOfOn(gs, order[j], x, y);
    }
  }

  /** What a root reaches through goroutines not taken is what descends from it and is not taken. */
  lemma ReachesUntaken(gs: Records, order: seq<int>, root: int, id: int)
    requires forall x :: x in Taken(gs, order) <==> SomeRoot(gs, order, x)
    ensures Reaches(gs, Taken(gs, order), root, id) <==> DescendsFrom(gs, root, id) && id !in Taken(gs, order)
  {
    TakenClosed(gs, order);
    if Reaches(gs, Taken(gs, order), root, id) {
      ReachesDescends(gs, Taken(gs, order), root, id);
      ReachesEnds(gs, Taken(gs, order), root, id);
    }
    if DescendsFrom(gs, root, id) && id !in Taken(gs, order) {
      DescendsAround(gs, Taken(gs, order), root, id);
    }
  }

  lemma TakenStep(gs: Records, rest: seq<int>, root: int, id: int)
    requires forall x :: x in Taken(gs, rest) <==> SomeRoot(gs, rest, x)
    ensures var before := Taken(gs, rest);
      (Root(gs, root) && root !in before && id in gs && Reaches(gs, before, root, id)) || id in before
      <==> id in before || RootOf(gs, root, id)
  {
    ReachesUntaken(gs, rest, root, id);
    if RootOf(gs, root, id) {
      ReachesEnds(gs, {}, root, id);
      if root in Taken(gs, rest) {
        TakenClosed(gs, rest);
      }
    }
  }

  /** A root takes what it is the first root of. */
  lemma {:induction false} FirstRootTakes(gs: Records, order: seq<int>, root: int, id: int)
    ensures Takes(gs, order, root, id) <==> First(gs, order, root, id)
  {
    if order != [] {
      var rest, last := order[..|order| - 1], order[|order| - 1];
      FirstRootTakes(gs, rest, root, id);
      TakenMeans(gs, rest);
      FirstSnoc(gs, order, root, id);
      ReachesUntaken(gs, rest, root, id);
      if RootOf(gs, root, id) && root in Taken(gs, rest) {
        TakenClosed(gs, rest);
      }
    }
  }

  lemma FirstAtPrefix(gs: Records, order: seq<int>, i: nat, id: int)
    requires i < |order| - 1
    ensures FirstAt(gs, order, i, id) <==> FirstAt(gs, order[..|order| - 1], i, id)
  {
    assert forall j :: 0 <= j <= i ==> order[..|order| - 1][j] == order[j];
  }

  lemma FirstAtLast(gs: Records, order: seq<int>, id: int)
    requires order != []
    ensures FirstAt(gs, order, |order| - 1, id)
       <==> RootOf(gs, order[|order| - 1], id) && !SomeRoot(gs, order[..|order| - 1], id)
  {
    var rest := order[..|order| - 1];
    assert forall j :: 0 <= j < |rest| ==> RootOf(gs, order[j], id) == RootOf(gs, rest[j], id);
  }

  lemma FirstSnoc(gs: Records, order: seq<int>, root: int, id: int)
    requires order != []
    ensures First(gs, order, root, id) <==>
      || First(gs, order[..|order| - 1], root, id)
      || (order[|order| - 1] == root && RootOf(gs, root, id) && !SomeRoot(gs, order[..|order| - 1], id))
  {
    var rest := order[..|order| - 1];
    FirstAtLast(gs, order, id);
    if i :| FirstAt(gs, order, i, id) && order[i] == root {
      if i < |rest| {
        FirstAtPrefix(gs, order, i, id);
        assert rest[i] == root;
      }
    }
    if i :| FirstAt(gs, rest, i, id) && rest[i] == root {
      FirstAtPrefix(gs, order, i, id);
      assert order[i] == root;
    }
  }

  lemma FirstUnique(gs: Records, order: seq<int>, a: int, b: int, id: int)
    requires First(gs, order, a, id) && First(gs, order, b, id)
    ensures a == b
  {
    var i :| FirstAt(gs, order, i, id) && order[i] == a;
    var j :| FirstAt(gs, order, j, id) && order[j] == b;
  }

  /** The first root of a goroutine is its own first root. */
  lemma FirstOfItself(gs: Records, order: seq<int>, root: int, id: int)
    requires First(gs, order, root, id)
    ensures First(gs, order, root, root)
  {
    var i :| FirstAt(gs, order, i, id) && order[i] == root;
    RootOfItself(gs, root);
    forall j | 0 <= j < i
      ensures !RootOf(gs, order[j], root)
    {
      if RootOf(gs, order[j], root) {
        RootOfOn(gs, order[j], root, id);
      }
    }
    assert FirstAt(gs, order, i, root);
  }

  lemma {:induction false} FirstExists(gs: Records, order: seq<int>, id: int) returns (root: int)
    requires SomeRoot(gs, order, id)
    ensures First(gs, order, root, id)
  {
    var rest := order[..|order| - 1];
    SomeRootSnoc(gs, order, id);
    if SomeRoot(gs, rest, id) {
      root := FirstExists(gs, rest, id);
      FirstSnoc(gs, order, root, id);
    } else {
      root := order[|order| - 1];
      FirstSnoc(gs, order, root, id);
    }
  }

  /** With every goroutine visited, a served one is taken by the first of its roots. */
  lemma ServedIsTaken(gs: Records, order: seq<int>, id: int) returns (root: int)
    requires VisitsAll(gs, order) && Served(gs, id)
    ensures Takes(gs, order, root, id) && Takes(gs, order, root, root)
  {
    var r :| Root(gs, r) && DescendsFrom(gs, r, id);
    var j :| 0 <= j < |order| && order[j] == r;
    assert RootOf(gs, order[j], id);
    root := FirstExists(gs, order, id);
    FirstOfItself(gs, order, root, id);
    FirstRootTakes(gs, order, root, id);
    FirstRootTakes(gs, order, root, root);
  }

  lemma TakesServed(gs: Records, order: seq<int>, root: int, id: int)
    requires Takes(gs, order, root, id)
    ensures RootOf(gs, root, id) && !Labelled(gs, id) && id in gs
  {
    FirstRootTakes(gs, order, root, id);
    ReachesEnds(gs, {}, root, id);
  }

  // ── What the groups of any order have in common ────────────────────────────

  ghost predicate Grouped(result: seq<RequestGroup>, id: int) {
    exists g :: g in result && id in g.ids
  }

  /** No label reads like the key of a serving goroutine's group. */
  ghost predicate NoCollision(gs: Records) {
    forall id, root :: Labelled(gs, id) && Root(gs, root) ==> RequestLabel(gs[id]) != StackKey(root)
  }

  lemma StackKeysDiffer(a: int, b: int)
    requires StackKey(a) == StackKey(b)
    ensures a == b
  {
    assert StackKey(a)[5..] == Decimal(a) && StackKey(b)[5..] == Decimal(b);
    DecimalsDiffer(a, b);
  }

  /** The key of a stack group: the goroutine's id in decimal after a prefix. */
  lemma StackKeyReads(id: nat)
    ensures StackKey(id)[..5] == "http-" && WritesOut(StackKey(id)[5..], id)
  {
    DecimalWritesOut(id);
    assert StackKey(id)[5..] == Decimal(id);
  }

  lemma SameKeySameGroup(result: seq<RequestGroup>, g: RequestGroup, h: RequestGroup)
    requires DistinctRequests(result) && g in result && h in result && g.requestId == h.requestId
    ensures g == h
  {
    var i :| 0 <= i < |result| && result[i] == g;
    var j :| 0 <= j < |result| && result[j] == h;
  }

  /** No goroutine is in two groups. */
  lemma GroupsDisjoint(gs: Records, result: seq<RequestGroup>, g: RequestGroup, h: RequestGroup, id: int)
    requires PossibleGroups(gs, result) && g in result && h in result && id in g.ids && id in h.ids
    ensures g == h
  {
    var order :| VisitsAll(gs, order) && Outcome(gs, order, result);
    assert ProperGroup(gs, order, g) && ProperGroup(gs, order, h);
    if Labelled(gs, id) {
      NotTaken(gs, order, g, id);
      NotTaken(gs, order, h, id);
    } else {
      var a :| StackGroup(gs, order, g, a);
      var b :| StackGroup(gs, order, h, b);
      FirstRootTakes(gs, order, a, id);
      FirstRootTakes(gs, order, b, id);
      FirstUnique(gs, order, a, b, id);
    }
    SameKeySameGroup(result, g, h);
  }

  lemma NotTaken(gs: Records, order: seq<int>, g: RequestGroup, id: int)
    requires ProperGroup(gs, order, g) && Labelled(gs, id) && id in g.ids
    ensures LabelGroup(gs, g) && g.requestId == RequestLabel(gs[id])
  {
    if root :| StackGroup(gs, order, g, root) {
      TakesServed(gs, order, root, id);
    }
  }

  /** Served goroutines are in groups, and whatever is in a group is labelled or served. */
  lemma GroupedMeans(gs: Records, result: seq<RequestGroup>, id: int)
    requires PossibleGroups(gs, result)
    ensures Served(gs, id) ==> Grouped(result, id)
    ensures Grouped(result, id) ==> Labelled(gs, id) || Served(gs, id)
  {
    var order :| VisitsAll(gs, order) && Outcome(gs, order, result);
    if Served(gs, id) {
      var root := ServedIsTaken(gs, order, id);
      var g :| g in result && StackGroup(gs, order, g, root);
      assert id in g.ids;
    }
    if g :| g in result && id in g.ids {
      assert ProperGroup(gs, order, g);
      if root :| StackGroup(gs, order, g, root) {
        TakesServed(gs, order, root, id);
      }
    }
  }

  /** A labelled goroutine is in a group unless a root's group has its label as key. */
  lemma LabelledGrouped(gs: Records, result: seq<RequestGroup>, id: int)
    requires PossibleGroups(gs, result) && Labelled(gs, id)
    ensures Grouped(result, id)
       <==> !exists g :: g in result && g.source == FromStack && g.requestId == RequestLabel(gs[id])
  {
    var order :| VisitsAll(gs, order) && Outcome(gs, order, result);
    var own :| own in result && own.requestId == RequestLabel(gs[id]);
    forall g | g in result && g.requestId == RequestLabel(gs[id])
      ensures g == own
    {
      SameKeySameGroup(result, g, own);
    }
    assert ProperGroup(gs, order, own);
    if own.source == FromLabel {
      assert id in own.ids;
    } else {
      forall g | g in result
        ensures id !in g.ids
      {
        if id in g.ids {
          NotTaken(gs, order, g, id);
        }
      }
    }
  }

  /** Without a collision the groups hold exactly the labelled and the served goroutines. */
  lemma GroupsExact(gs: Records, result: seq<RequestGroup>, id: int)
    requires PossibleGroups(gs, result) && NoCollision(gs)
    ensures Grouped(result, id) <==> Labelled(gs, id) || Served(gs, id)
  {
    GroupedMeans(gs, result, id);
    if Labelled(gs, id) {
      var order :| VisitsAll(gs, order) && Outcome(gs, order, result);
      forall g | g in result && g.source == FromStack
        ensures g.requestId != RequestLabel(gs[id])
      {
        assert ProperGroup(gs, order, g);
        var root :| StackGroup(gs, order, g, root);
        TakesServed(gs, order, root, root);
      }
      LabelledGrouped(gs, result, id);
    }
  }

  /** The goroutine is in the label group of v. */
  ghost predicate InLabelGroup(result: seq<RequestGroup>, id: int, v: string) {
    exists g :: g in result && g.source == FromLabel && g.requestId == v && id in g.ids
  }

  ghost predicate HasStackGroup(result: seq<RequestGroup>, v: string) {
    exists g :: g in result && g.source == FromStack && g.requestId == v
  }

  /** A goroutine is in the group of v when v is the value of its first request label that has one. */
  ghost predicate GroupedByLabels(gs: Records, result: seq<RequestGroup>) {
    forall id, v :: InLabelGroup(result, id, v) <==>
      id in gs && InRequest(gs[id].labels, v) && !HasStackGroup(result, v)
  }

  lemma LabelGroupsMean(gs: Records, result: seq<RequestGroup>)
    requires PossibleGroups(gs, result)
    ensures GroupedByLabels(gs, result)
  {
    forall id, v
      ensures InLabelGroup(result, id, v) <==>
        id in gs && InRequest(gs[id].labels, v) && !HasStackGroup(result, v)
    {
      if id in gs {
        RequestLabelMeans(gs[id], v);
      }
      OneLabelGroup(gs, result, id, v);
    }
  }

  lemma OneLabelGroup(gs: Records, result: seq<RequestGroup>, id: int, v: string)
    requires PossibleGroups(gs, result)
    ensures InLabelGroup(result, id, v) <==>
      Labelled(gs, id) && RequestLabel(gs[id]) == v && !HasStackGroup(result, v)
  {
    var order :| VisitsAll(gs, order) && Outcome(gs, order, result);
    if g :| g in result && g.source == FromLabel && g.requestId == v && id in g.ids {
      assert ProperGroup(gs, order, g);
      if h :| h in result && h.source == FromStack && h.requestId == v {
        SameKeySameGroup(result, g, h);
      }
    }
    if Labelled(gs, id) && RequestLabel(gs[id]) == v && !HasStackGroup(result, v) {
      var own :| own in result && own.requestId == RequestLabel(gs[id]);
      assert ProperGroup(gs, order, own) && own.source == FromLabel;
      assert id in own.ids;
    }
  }

  // ── buildRequestGroups ─────────────────────────────────────────────────────

  /** The groups while the goroutines of an order have been visited. */
  ghost predicate Between(gs: Records, groups: map<string, RequestGroup>, claimed: set<int>, order: seq<int>) {
    && (forall k :: k in groups ==> groups[k].requestId == k && ProperGroup(gs, order, groups[k]))
    && (forall root :: Takes(gs, order, root, root) ==>
          StackKey(root) in groups && StackGroup(gs, order, groups[StackKey(root)], root))
    && (forall id :: Labelled(gs, id) ==> RequestLabel(gs[id]) in groups)
    && (forall id :: id in claimed <==> Labelled(gs, id) || id in Taken(gs, order))
  }

  lemma AfterLabels(gs: Records, groups: map<string, RequestGroup>, claimed: set<int>)
    requires Keyed(gs) && LabelGroups(gs, groups, gs.Keys)
    requires forall id :: id in claimed <==> exists k :: k in groups && id in groups[k].ids
    ensures Between(gs, groups, claimed, [])
  {
    forall k | k in groups
      ensures ProperGroup(gs, [], groups[k])
    {
      assert LabelGroup(gs, groups[k]);
    }
    forall id
      ensures id in claimed <==> Labelled(gs, id)
    {
      if Labelled(gs, id) {
        assert id in groups[RequestLabel(gs[id])].ids;
      }
    }
  }

  /** A goroutine that takes nothing leaves the groups as they are. */
  lemma VisitedInVain(gs: Records, groups: map<string, RequestGroup>, claimed: set<int>, order: seq<int>, id: int)
    requires Between(gs, groups, claimed, order) && (id in claimed || !Root(gs, id))
    ensures Between(gs, groups, claimed, order + [id])
  {
    var more := order + [id];
    assert more[..|order|] == order;
    assert Taken(gs, more) == Taken(gs, order);
    forall root, x
      ensures Takes(gs, more, root, x) <==> Takes(gs, order, root, x)
    {
    }
    forall g | ProperGroup(gs, order, g)
      ensures ProperGroup(gs, more, g)
    {
      SameTakes(gs, order, more, g);
    }
  }

  lemma SameTakes(gs: Records, order: seq<int>, more: seq<int>, g: RequestGroup)
    requires ProperGroup(gs, order, g)
    requires forall root, x :: Takes(gs, more, root, x) <==> Takes(gs, order, root, x)
    ensures ProperGroup(gs, more, g)
  {
    if root :| StackGroup(gs, order, g, root) {
      assert StackGroup(gs, more, g, root);
    }
  }

  lemma {:induction false} OnlyVisitedTake(gs: Records, order: seq<int>, root: int, id: int)
    requires Takes(gs, order, root, id)
    ensures root in order
  {
    var rest := order[..|order| - 1];
    if Takes(gs, rest, root, id) {
      OnlyVisitedTake(gs, rest, root, id);
    }
  }

  /** A new root takes what its walk gathers, and the others keep what they took. */
  lemma TakesMore(gs: Records, order: seq<int>, id: int, root: int, x: int)
    requires id !in order && Root(gs, id) && id !in Taken(gs, order)
    ensures Takes(gs, order + [id], root, x)
       <==> if root == id then Reaches(gs, Taken(gs, order), id, x) else Takes(gs, order, root, x)
  {
    assert (order + [id])[..|order|] == order;
    if Takes(gs, order, id, x) {
      OnlyVisitedTake(gs, order, id, x);
    }
  }

  lemma OtherGroup(gs: Records, order: seq<int>, id: int, g: RequestGroup, root: int)
    requires id !in order && Root(gs, id) && id !in Taken(gs, order) && StackGroup(gs, order, g, root)
    ensures root != id && StackGroup(gs, order + [id], g, root)
  {
    OnlyVisitedTake(gs, order, root, root);
    forall x
      ensures Takes(gs, order + [id], root, x) <==> Takes(gs, order, root, x)
    {
      TakesMore(gs, order, id, root, x);
    }
  }

  lemma NewGroup(gs: Records, order: seq<int>, id: int, ids: seq<int>)
    requires id !in order && Root(gs, id) && id !in Taken(gs, order) && NoRepeats(ids)
    requires forall x :: x in ids <==> Reaches(gs, Taken(gs, order), id, x)
    ensures StackGroup(gs, order + [id], RequestGroup(StackKey(id), FromStack, ids), id)
  {
    forall x
      ensures Takes(gs, order + [id], id, x) <==> x in ids
    {
      TakesMore(gs, order, id, id, x);
    }
    ReachesItself(gs, Taken(gs, order), id);
  }

  lemma StillProper(gs: Records, order: seq<int>, id: int, g: RequestGroup)
    requires ProperGroup(gs, order, g) && id !in order && Root(gs, id) && id !in Taken(gs, order)
    ensures ProperGroup(gs, order + [id], g)
  {
    if root :| StackGroup(gs, order, g, root) {
      OtherGroup(gs, order, id, g, root);
    }
  }

  /** A root other than the new one keeps its group. */
  lemma StillGrouped(gs: Records, groups: map<string, RequestGroup>, claimed: set<int>, order: seq<int>, id: int,
                     root: int)
    requires Between(gs, groups, claimed, order) && id !in order && Root(gs, id) && id !in Taken(gs, order)
    requires root != id && Takes(gs, order + [id], root, root)
    ensures StackKey(root) != StackKey(id) && StackKey(root) in groups
    ensures StackGroup(gs, order + [id], groups[StackKey(root)], root)
  {
    TakesMore(gs, order, id, root, root);
    OtherGroup(gs, order, id, groups[StackKey(root)], root);
    if StackKey(root) == StackKey(id) {
      StackKeysDiffer(root, id);
    }
  }

  /** Adding the group of a root with what its walk gathered. */
  lemma AddStackGroup(gs: Records, groups: map<string, RequestGroup>, claimed: set<int>, order: seq<int>, id: int,
                      ids: seq<int>, after: set<int>)
    requires Between(gs, groups, claimed, order) && Root(gs, id) && id !in claimed && id !in order && NoRepeats(ids)
    requires forall x :: x in ids <==> Reaches(gs, Taken(gs, order), id, x)
    requires forall x :: x in after <==> x in claimed || x in ids
    ensures Between(gs, groups[StackKey(id) := RequestGroup(StackKey(id), FromStack, ids)], after, order + [id])
  {
    var key, g := StackKey(id), RequestGroup(StackKey(id), FromStack, ids);
    var groups' := groups[key := g];
    NewGroup(gs, order, id, ids);
    forall k | k in groups'
      ensures groups'[k].requestId == k && ProperGroup(gs, order + [id], groups'[k])
    {
      if k != key {
        StillProper(gs, order, id, groups[k]);
      }
    }
    forall root | Takes(gs, order + [id], root, root)
      ensures StackKey(root) in groups' && StackGroup(gs, order + [id], groups'[StackKey(root)], root)
    {
      if root != id {
        StillGrouped(gs, groups, claimed, order, id, root);
      }
    }
    TakenMore(gs, order, id, ids);
  }

  lemma TakenMore(gs: Records, order: seq<int>, id: int, ids: seq<int>)
    requires Root(gs, id) && id !in Taken(gs, order)
    requires forall x :: x in ids <==> Reaches(gs, Taken(gs, order), id, x)
    ensures forall x :: x in Taken(gs, order + [id]) <==> x in Taken(gs, order) || x in ids
  {
    assert (order + [id])[..|order|] == order;
    forall x | x in ids
      ensures x in gs
    {
      ReachesEnds(gs, Taken(gs, order), id, x);
    }
  }

  /** The walk leaves out labelled goroutines anyway. */
  lemma LabelsBarNothing(gs: Records, taken: set<int>, claimed: set<int>, a: int, b: int)
    requires forall x :: x in claimed <==> Labelled(gs, x) || x in taken
    ensures Reaches(gs, claimed, a, b) <==> Reaches(gs, taken, a, b)
  {
    if path :| ChainBetween(gs, claimed, a, b, path) {
      assert ChainBetween(gs, taken, a, b, path);
    }
    if path :| ChainBetween(gs, taken, a, b, path) {
      assert ChainBetween(gs, claimed, a, b, path);
    }
  }

  /** The same group, its ids in ascending order. */
  ghost predicate SameGroup(a: RequestGroup, b: RequestGroup) {
    a.requestId == b.requestId && a.source == b.source && (NoRepeats(b.ids) ==> Ascending(a.ids))
    && forall id :: id in a.ids <==> id in b.ids
  }

  lemma SameGroupProper(gs: Records, order: seq<int>, a: RequestGroup, b: RequestGroup)
    requires SameGroup(a, b) && ProperGroup(gs, order, b)
    ensures ProperGroup(gs, order, a) && Ascending(a.ids)
  {
    if LabelGroup(gs, b) {
      assert LabelGroup(gs, a);
    } else {
      var root :| StackGroup(gs, order, b, root);
      assert StackGroup(gs, order, a, root);
    }
  }

  method SortIds(g: RequestGroup) returns (h: RequestGroup)
    ensures SameGroup(h, g)
  {
    var ids := SortSlice(g.ids, (a: int, b: int) => a < b);
    h := g.(ids := ids);
    ghost var self := (x: int) => x;
    if NoRepeats(g.ids) {
      assert DistinctBy(self, g.ids);
      DistinctPermutes(self, g.ids, ids);
      assert forall i, j :: 0 <= i < j < |ids| ==> self(ids[i]) != self(ids[j]);
    }
    forall id
      ensures id in ids <==> id in g.ids
    {
      assert id in multiset(ids) <==> id in multiset(g.ids);
    }
  }

  ghost predicate Collected(result: seq<RequestGroup>, groups: map<string, RequestGroup>, done: set<string>) {
    && (forall g :: g in result ==> g.requestId in done && g.requestId in groups && SameGroup(g, groups[g.requestId]))
    && DistinctRequests(result)
    && (forall k :: k in done ==> exists g :: g in result && g.requestId == k)
  }

  lemma CollectOne(result: seq<RequestGroup>, groups: map<string, RequestGroup>, done: set<string>, k: string,
                   g: RequestGroup)
    requires Collected(result, groups, done) && k !in done && k in groups && groups[k].requestId == k
    requires SameGroup(g, groups[k])
    ensures Collected(result + [g], groups, done + {k})
  {
    var more := result + [g];
    assert more[|result|] == g;
    assert forall d :: d in more <==> d in result || d == g;
    assert forall i :: 0 <= i < |result| ==> result[i] in result;
  }

  method Collect(groups: map<string, RequestGroup>) returns (result: seq<RequestGroup>)
    requires forall k :: k in groups ==> groups[k].requestId == k
    ensures Collected(result, groups, groups.Keys)
  {
    result := [];
    var left := groups.Keys;
    while left != {}
      invariant left <= groups.Keys && Collected(result, groups, groups.Keys - left)
      decreases left
    {
      var k := Pick(left);
      var g := SortIds(groups[k]);
      CollectOne(result, groups, groups.Keys - left, k, g);
      assert groups.Keys - (left - {k}) == (groups.Keys - left) + {k};
      left := left - {k};
      result := result + [g];
    }
    assert groups.Keys - {} == groups.Keys;
  }

  lemma CollectedStack(gs: Records, groups: map<string, RequestGroup>, claimed: set<int>, order: seq<int>,
                       result: seq<RequestGroup>, root: int)
    requires Between(gs, groups, claimed, order) && Collected(result, groups, groups.Keys)
    requires Takes(gs, order, root, root)
    ensures exists g :: g in result && StackGroup(gs, order, g, root)
  {
    var g :| g in result && g.requestId == StackKey(root);
    assert SameGroup(g, groups[StackKey(root)]) && StackGroup(gs, order, groups[StackKey(root)], root);
    assert Ascending(g.ids);
    assert StackGroup(gs, order, g, root);
  }

  lemma CollectedOutcome(gs: Records, groups: map<string, RequestGroup>, claimed: set<int>, order: seq<int>,
                         result: seq<RequestGroup>)
    requires Between(gs, groups, claimed, order) && Collected(result, groups, groups.Keys)
    ensures Outcome(gs, order, result)
  {
    forall g | g in result
      ensures ProperGroup(gs, order, g) && Ascending(g.ids)
    {
      SameGroupProper(gs, order, g, groups[g.requestId]);
    }
    forall root | Takes(gs, order, root, root)
      ensures exists g :: g in result && StackGroup(gs, order, g, root)
    {
      CollectedStack(gs, groups, claimed, order, result, root);
    }
  }

  /** One goroutine of the second pass. */
  method Visit(gs: Records, children: map<int, seq<int>>, groups0: map<string, RequestGroup>, claimed0: set<int>,
               id: int, ghost order: seq<int>)
    returns (groups: map<string, RequestGroup>, claimed: set<int>)
    requires Indexes(gs, children, gs.Keys) && id in gs && id !in order && Between(gs, groups0, claimed0, order)
    ensures Between(gs, groups, claimed, order + [id])
  {
    groups, claimed := groups0, claimed0;
    if id !in claimed && Serves(gs[id]) {
      var ids, after := WalkDescendants(gs, children, id, claimed);
      forall x
        ensures Reaches(gs, claimed0, id, x) <==> Reaches(gs, Taken(gs, order), id, x)
      {
        LabelsBarNothing(gs, Taken(gs, order), claimed0, id, x);
      }
      AddStackGroup(gs, groups, claimed, order, id, ids, after);
      groups := groups[StackKey(id) := RequestGroup(StackKey(id), FromStack, ids)];
      claimed := after;
    } else {
      VisitedInVain(gs, groups, claimed, order, id);
    }
  }

  /** The groups are those of the order in which the second pass happens to visit the goroutines. */
  method BuildRequestGroups(gs: Records) returns (result: seq<RequestGroup>)
    requires Keyed(gs)
    ensures PossibleGroups(gs, result) && GroupedByLabels(gs, result)
  {
    var groups := GroupByLabel(gs);
    var children := IndexChildren(gs);
    var claimed := ClaimedIds(groups);
    AfterLabels(gs, groups, claimed);
    var left := gs.Keys;
    ghost var order: seq<int> := [];
    while left != {}
      invariant left <= gs.Keys && Between(gs, groups, claimed, order)
      invariant NoRepeats(order) && forall id :: id in order <==> id in gs && id !in left
      decreases left
    {
      var id := Pick(left);
      left := left - {id};
      groups, claimed := Visit(gs, children, groups, claimed, id, order);
      order := order + [id];
    }
    result := Collect(groups);
    CollectedOutcome(gs, groups, claimed, order, result);
    assert VisitsAll(gs, order);
    LabelGroupsMean(gs, result);
  }

  method ClaimedIds(groups: map<string, RequestGroup>) returns (claimed: set<int>)
    ensures forall id :: id in claimed <==> exists k :: k in groups && id in groups[k].ids
  {
    claimed := {};
    var left := groups.Keys;
    while left != {}
      invariant left <= groups.Keys
      invariant forall id :: id in claimed <==> exists k :: k in groups && k !in left && id in groups[k].ids
      decreases left
    {
      var k := Pick(left);
      left := left - {k};
      claimed := claimed + set id | id in groups[k].ids;
    }
  }
}
