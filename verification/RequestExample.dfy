/** Three goroutines whose cached request groups new parents make stale, though nobody is recruited. */
module RequestExample {
  import opened EngineExport
  import opened Model
  import opened Options
  import opened RequestCaches
  import opened RequestGroups
  import opened Requests
  import opened StateMachine

  const SERVE := Snapshot(1, 0, [StackFrame("net/http.(*conn).serve", "", 0)])

  /** 1 started 2 and 2 started 3; 1 and 2 serve connections. */
  function Trio(): Records {
    map[1 := ZERO.(id := 1, lastStack := Some(SERVE)),
        2 := ZERO.(id := 2, parent := 1, lastStack := Some(SERVE)),
        3 := ZERO.(id := 3, parent := 2)]
  }

  /** The groups when 2 is visited before 1. */
  function Cached(): seq<RequestGroup> {
    [RequestGroup(StackKey(2), FromStack, [2, 3]), RequestGroup(StackKey(1), FromStack, [1])]
  }

  /** 1 is found to be a child of 3. */
  const NEW_PARENTS := map[1 := 3]

  lemma Roots()
    ensures Root(Trio(), 1) && Root(Trio(), 2) && forall x :: Root(Trio(), x) ==> x == 1 || x == 2
    ensures forall x :: !Labelled(Trio(), x)
  {
    var frame := SERVE.frames[0];
    assert Contains(frame.func, "net/http.(*conn).serve");
    assert frame in SERVE.frames && IsServeFrame(frame);
  }

  lemma NobodyAboveOne(a: int)
    requires DescendsFrom(Trio(), a, 1)
    ensures a == 1
  {
    var path :| ChainBetween(Trio(), {}, a, 1, path);
    LastLink(Trio(), {}, path);
  }

  lemma Descents()
    ensures RootOf(Trio(), 2, 2) && RootOf(Trio(), 2, 3) && RootOf(Trio(), 1, 1)
    ensures !RootOf(Trio(), 2, 1) && forall a, b :: RootOf(Trio(), a, b) ==> b in {1, 2, 3}
  {
    Roots();
    RootOfItself(Trio(), 1);
    RootOfItself(Trio(), 2);
    ChildReached(Trio(), {}, 2, 2, 3);
    if DescendsFrom(Trio(), 2, 1) {
      NobodyAboveOne(2);
    }
    forall a, b | RootOf(Trio(), a, b)
      ensures b in {1, 2, 3}
    {
      ReachesEnds(Trio(), {}, a, b);
    }
  }

  lemma Takings(root: int, x: int)
    ensures Takes(Trio(), [2, 1, 3], root, x) <==> (root == 2 && (x == 2 || x == 3)) || (root == 1 && x == 1)
  {
    var gs, order := Trio(), [2, 1, 3];
    Roots();
    Descents();
    FirstRootTakes(gs, order, root, x);
    if x == 2 || x == 3 {
      assert FirstAt(gs, order, 0, x);
      if First(gs, order, root, x) {
        FirstUnique(gs, order, root, 2, x);
      }
      assert order[0] == 2;
    } else if x == 1 {
      assert FirstAt(gs, order, 1, x);
      if First(gs, order, root, x) {
        FirstUnique(gs, order, root, 1, x);
      }
      assert order[1] == 1;
    }
  }

  lemma StackKeysHere()
    ensures StackKey(1) != StackKey(2)
  {
    if StackKey(1) == StackKey(2) {
      StackKeysDiffer(1, 2);
    }
  }

  lemma GroupsHere()
    ensures StackGroup(Trio(), [2, 1, 3], Cached()[0], 2) && StackGroup(Trio(), [2, 1, 3], Cached()[1], 1)
  {
    forall x
      ensures Takes(Trio(), [2, 1, 3], 2, x) <==> x == 2 || x == 3
      ensures Takes(Trio(), [2, 1, 3], 1, x) <==> x == 1
    {
      Takings(2, x);
      Takings(1, x);
    }
  }

  lemma CachedPossible()
    ensures PossibleGroups(Trio(), Cached())
  {
    var gs, order, result := Trio(), [2, 1, 3], Cached();
    Roots();
    forall root, x
      ensures Takes(gs, order, root, x) <==> (root == 2 && (x == 2 || x == 3)) || (root == 1 && x == 1)
    {
      Takings(root, x);
    }
    StackKeysHere();
    GroupsHere();
    assert VisitsAll(gs, order);
    assert Outcome(gs, order, result);
  }

  lemma CycleClosed()
    ensures Tangled(MergeParents(Trio(), NEW_PARENTS), 1, 2)
  {
    var merged := MergeParents(Trio(), NEW_PARENTS);
    Roots();
    ReachesItself(merged, {}, 1);
    ReachesItself(merged, {}, 2);
    ChildReached(merged, {}, 1, 1, 2);
    ChildReached(merged, {}, 2, 2, 3);
    ChildReached(merged, {}, 2, 3, 1);
  }

  lemma NobodyRecruited()
    ensures !Recruits(Trio(), NEW_PARENTS)
  {
    Roots();
    RootOfItself(Trio(), 1);
    assert Served(Trio(), 1);
  }

  lemma BothHead()
    ensures Heads(Cached(), 1) && Heads(Cached(), 2)
  {
    assert Cached()[0] in Cached() && Cached()[1] in Cached();
  }

  /** The cached groups are right before the new parents and wrong after them, with nobody recruited. */
  lemma TangledGroupsStale()
    ensures PossibleGroups(Trio(), Cached()) && !Recruits(Trio(), NEW_PARENTS)
    ensures !PossibleGroups(MergeParents(Trio(), NEW_PARENTS), Cached())
  {
    CachedPossible();
    NobodyRecruited();
    CachedTangles();
    FamilyKeyed();
    ParentsStaleIff(Trio(), NEW_PARENTS, Cached());
  }

  lemma CachedTangles()
    ensures Tangles(Trio(), NEW_PARENTS, Cached())
  {
    CycleClosed();
    BothHead();
  }

  lemma FamilyKeyed()
    ensures Keyed(Trio())
  {
  }
}
