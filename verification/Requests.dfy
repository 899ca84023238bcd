/** Goroutines grouped by HTTP request: by label first, then by descent from a serving goroutine. */
module Requests {
  import opened Collections
  import opened CycleKeys
  import opened Model

  datatype Source = FromLabel | FromStack

  datatype RequestGroup = RequestGroup(requestId: string, source: Source, ids: seq<int>)

  type Records = map<int, Goroutine>

  ghost predicate Keyed(gs: Records) {
    forall id :: id in gs ==> gs[id].id == id != 0
  }

  // ── What makes a goroutine part of a request ───────────────────────────────

  function LabelValue(labels: Labels, key: string): string {
    if key in labels then labels[key] else ""
  }

  /** The first nonempty of the three request labels. */
  function RequestLabel(g: Goroutine): string {
    if LabelValue(g.labels, "http.request_id") != "" then LabelValue(g.labels, "http.request_id")
    else if LabelValue(g.labels, "request_id") != "" then LabelValue(g.labels, "request_id")
    else LabelValue(g.labels, "trace_id")
  }

  /** The keys of a request label, the first that has a value deciding. */
  const REQUEST_KEYS: seq<string> := ["http.request_id", "request_id", "trace_id"]

  /** v is a value, that of the first request key that has one. */
  ghost predicate InRequest(labels: Labels, v: string) {
    v != "" && exists i :: DecidesRequest(labels, v, i)
  }

  ghost predicate DecidesRequest(labels: Labels, v: string, i: int) {
    && 0 <= i < |REQUEST_KEYS| && REQUEST_KEYS[i] in labels && labels[REQUEST_KEYS[i]] == v
    && forall j :: 0 <= j < i ==> REQUEST_KEYS[j] !in labels || labels[REQUEST_KEYS[j]] == ""
  }

  lemma RequestLabelMeans(g: Goroutine, v: string)
    ensures InRequest(g.labels, v) <==> v != "" && RequestLabel(g) == v
  {
    var keys := REQUEST_KEYS;
    assert keys[0] == "http.request_id" && keys[1] == "request_id" && keys[2] == "trace_id";
    if v != "" && RequestLabel(g) == v {
      assert DecidesRequest(g.labels, v, 0) || DecidesRequest(g.labels, v, 1) || DecidesRequest(g.labels, v, 2);
    }
  }

  function Contains(s: string, part: string): bool
    decreases |s|
  {
    part <= s || (s != "" && Contains(s[1..], part))
  }

  /** The part stands at index i. */
  ghost predicate StandsAt(s: string, part: string, i: int) {
    0 <= i && i + |part| <= |s| && s[i..i + |part|] == part
  }

  lemma {:induction false} ContainsMeans(s: string, part: string)
    ensures Contains(s, part) <==> exists i :: StandsAt(s, part, i)
  {
    if part <= s {
      assert StandsAt(s, part, 0);
    } else if s != "" {
      ContainsMeans(s[1..], part);
      if i :| StandsAt(s[1..], part, i) {
        assert s[i + 1..i + 1 + |part|] == s[1..][i..i + |part|];
        assert StandsAt(s, part, i + 1);
      }
      if i :| StandsAt(s, part, i) {
        assert i > 0 && s[1..][i - 1..i - 1 + |part|] == s[i..i + |part|];
        assert StandsAt(s[1..], part, i - 1);
      }
    }
  }

  predicate IsServeFrame(f: StackFrame) {
    Contains(f.func, "net/http.(*conn).serve") || Contains(f.func, "net/http.(*Server).Serve")
    || Contains(f.func, "net/http.HandlerFunc.ServeHTTP")
  }

  predicate Serves(g: Goroutine) {
    g.lastStack.Some? && exists f :: f in g.lastStack.value.frames && IsServeFrame(f)
  }

  function StackKey(id: int): string {
    "http-" + Decimal(id)
  }

  /** Reached by its label. */
  predicate Labelled(gs: Records, id: int) {
    id in gs && RequestLabel(gs[id]) != ""
  }

  /** A goroutine request walks start from. */
  predicate Root(gs: Records, id: int) {
    id in gs && !Labelled(gs, id) && Serves(gs[id])
  }

  /** The function names that tell a goroutine serves HTTP. */
  const SERVE_NAMES: seq<string> :=
    ["net/http.(*conn).serve", "net/http.(*Server).Serve", "net/http.HandlerFunc.ServeHTTP"]

  /** Some frame of the stack has one of these names somewhere in its own. */
  ghost predicate ServesHttp(frames: seq<StackFrame>) {
    exists f, n, i :: f in frames && 0 <= n < |SERVE_NAMES| && StandsAt(f.func, SERVE_NAMES[n], i)
  }

  lemma ServeFrameMeans(f: StackFrame)
    ensures IsServeFrame(f) <==> exists n, i :: 0 <= n < |SERVE_NAMES| && StandsAt(f.func, SERVE_NAMES[n], i)
  {
    var names := SERVE_NAMES;
    ContainsMeans(f.func, names[0]);
    ContainsMeans(f.func, names[1]);
    ContainsMeans(f.func, names[2]);
  }

  /** A root has no request label and a stack that serves HTTP. */
  lemma RootMeans(gs: Records, id: int)
    ensures Root(gs, id) <==>
      && id in gs && (forall v :: !InRequest(gs[id].labels, v))
      && gs[id].lastStack.Some? && ServesHttp(gs[id].lastStack.value.frames)
  {
    if id in gs {
      forall v
        ensures InRequest(gs[id].labels, v) <==> v != "" && RequestLabel(gs[id]) == v
      {
        RequestLabelMeans(gs[id], v);
      }
      assert InRequest(gs[id].labels, RequestLabel(gs[id])) <==> RequestLabel(gs[id]) != "";
      if gs[id].lastStack.Some? {
        forall f | f in gs[id].lastStack.value.frames
          ensures IsServeFrame(f) <==> exists n, i :: 0 <= n < |SERVE_NAMES| && StandsAt(f.func, SERVE_NAMES[n], i)
        {
          ServeFrameMeans(f);
        }
      }
    }
  }

  ghost predicate Child(gs: Records, a: int, b: int) {
    a != 0 && b in gs && gs[b].parent == a
  }

  /** A chain of parent-to-child links among unlabelled goroutines that are not taken. */
  ghost predicate Chain(gs: Records, taken: set<int>, path: seq<int>) {
    && path != []
    && (forall i :: 0 <= i < |path| ==> path[i] in gs && !Labelled(gs, path[i]) && path[i] !in taken)
    && (forall i :: 0 <= i < |path| - 1 ==> Child(gs, path[i], path[i + 1]))
  }

  ghost predicate ChainBetween(gs: Records, taken: set<int>, a: int, b: int, path: seq<int>) {
    Chain(gs, taken, path) && path[0] == a && path[|path| - 1] == b
  }

  ghost predicate Reaches(gs: Records, taken: set<int>, a: int, b: int) {
    exists path :: ChainBetween(gs, taken, a, b, path)
  }

  ghost predicate DescendsFrom(gs: Records, root: int, id: int) {
    Reaches(gs, {}, root, id)
  }

  /** Descends from some root. */
  ghost predicate Served(gs: Records, id: int) {
    exists root :: Root(gs, root) && DescendsFrom(gs, root, id)
  }

  lemma ReachesItself(gs: Records, taken: set<int>, a: int)
    requires a in gs && !Labelled(gs, a) && a !in taken
    ensures Reaches(gs, taken, a, a)
  {
    assert ChainBetween(gs, taken, a, a, [a]);
  }

  lemma ChildReached(gs: Records, taken: set<int>, root: int, a: int, b: int)
    requires Reaches(gs, taken, root, a) && Child(gs, a, b) && !Labelled(gs, b) && b !in taken
    ensures Reaches(gs, taken, root, b)
  {
    var path :| ChainBetween(gs, taken, root, a, path);
    assert ChainBetween(gs, taken, root, b, path + [b]);
  }

  /** The goroutine at index i of a chain lies between its ends. */
  lemma ChainThrough(gs: Records, taken: set<int>, path: seq<int>, i: nat)
    requires Chain(gs, taken, path) && i < |path|
    ensures Reaches(gs, taken, path[0], path[i]) && Reaches(gs, taken, path[i], path[|path| - 1])
  {
    assert ChainBetween(gs, taken, path[0], path[i], path[..i + 1]);
    assert ChainBetween(gs, taken, path[i], path[|path| - 1], path[i..]);
  }

  lemma LastLink(gs: Records, taken: set<int>, path: seq<int>)
    requires Chain(gs, taken, path)
    ensures |path| > 1 ==> Child(gs, path[|path| - 2], path[|path| - 1])
  {
  }

  lemma ReachesOn(gs: Records, taken: set<int>, a: int, b: int, c: int)
    requires Reaches(gs, taken, a, b) && Reaches(gs, taken, b, c)
    ensures Reaches(gs, taken, a, c)
  {
    var p :| ChainBetween(gs, taken, a, b, p);
    var q :| ChainBetween(gs, taken, b, c, q);
    assert ChainBetween(gs, taken, a, c, p + q[1..]);
  }

  lemma ReachesEnds(gs: Records, taken: set<int>, a: int, b: int)
    requires Reaches(gs, taken, a, b)
    ensures a in gs && b in gs && !Labelled(gs, a) && !Labelled(gs, b) && a !in taken && b !in taken
  {
  }

  /** A set that holds the unlabelled untaken children of its members holds all they reach. */
  lemma {:induction false} ClosedHoldsChain(gs: Records, taken: set<int>, held: set<int>, path: seq<int>)
    requires Chain(gs, taken, path) && path[0] in held
    requires forall a, b :: a in held && Child(gs, a, b) && !Labelled(gs, b) && b !in taken ==> b in held
    ensures path[|path| - 1] in held
    decreases |path|
  {
    if |path| > 1 {
      assert Child(gs, path[0], path[1]);
      assert Chain(gs, taken, path[1..]);
      ClosedHoldsChain(gs, taken, held, path[1..]);
    }
  }

  // ── Pass 1: labels ─────────────────────────────────────────────────────────

  /** The label groups once the goroutines in done have been looked at. */
  ghost predicate LabelGroups(gs: Records, groups: map<string, RequestGroup>, done: set<int>) {
    && (forall k :: k in groups ==>
          groups[k].requestId == k != "" && groups[k].source == FromLabel && NoRepeats(groups[k].ids))
    && (forall k, id :: k in groups && id in groups[k].ids ==> id in done && id in gs && RequestLabel(gs[id]) == k)
    && (forall id :: id in done && Labelled(gs, id) ==>
          RequestLabel(gs[id]) in groups && id in groups[RequestLabel(gs[id])].ids)
  }

  method GroupByLabel(gs: Records) returns (groups: map<string, RequestGroup>)
    requires Keyed(gs)
    ensures LabelGroups(gs, groups, gs.Keys)
    ensures forall v, id :: v in groups && id in groups[v].ids <==> id in gs && InRequest(gs[id].labels, v)
  {
    groups := map[];
    var left := gs.Keys;
    while left != {}
      invariant left <= gs.Keys && LabelGroups(gs, groups, gs.Keys - left)
      decreases left
    {
      var id := Pick(left);
      var reqId := RequestLabel(gs[id]);
      ghost var done := gs.Keys - left;
      assert gs.Keys - (left - {id}) == done + {id};
      left := left - {id};
      if reqId != "" {
        var rg := if reqId in groups then groups[reqId] else RequestGroup(reqId, FromLabel, []);
        LabelStep(gs, groups, done, id);
        groups := groups[reqId := rg.(ids := rg.ids + [id])];
      }
    }
    assert gs.Keys - {} == gs.Keys;
    LabelGroupsHold(gs, groups);
  }

  lemma LabelGroupsHold(gs: Records, groups: map<string, RequestGroup>)
    requires LabelGroups(gs, groups, gs.Keys)
    ensures forall v, id :: v in groups && id in groups[v].ids <==> id in gs && InRequest(gs[id].labels, v)
  {
    forall v, id
      ensures v in groups && id in groups[v].ids <==> id in gs && InRequest(gs[id].labels, v)
    {
      if id in gs {
        RequestLabelMeans(gs[id], v);
      }
    }
  }

  lemma LabelStep(gs: Records, groups: map<string, RequestGroup>, done: set<int>, id: int)
    requires LabelGroups(gs, groups, done) && id in gs && id !in done && RequestLabel(gs[id]) != ""
    ensures var k := RequestLabel(gs[id]);
      var rg := if k in groups then groups[k] else RequestGroup(k, FromLabel, []);
      LabelGroups(gs, groups[k := rg.(ids := rg.ids + [id])], done + {id})
  {
    var k := RequestLabel(gs[id]);
    var rg := if k in groups then groups[k] else RequestGroup(k, FromLabel, []);
    assert id !in rg.ids;
    assert forall x :: x in rg.ids + [id] <==> x in rg.ids || x == id;
  }

  // ── Pass 2: descent ────────────────────────────────────────────────────────

  function ChildList(children: map<int, seq<int>>, a: int): seq<int> {
    if a in children then children[a] else []
  }

  ghost predicate Indexes(gs: Records, children: map<int, seq<int>>, done: set<int>) {
    forall a, b :: b in ChildList(children, a) <==> b in done && Child(gs, a, b)
  }

  method IndexChildren(gs: Records) returns (children: map<int, seq<int>>)
    ensures Indexes(gs, children, gs.Keys)
  {
    children := map[];
    var left := gs.Keys;
    while left != {}
      invariant left <= gs.Keys && Indexes(gs, children, gs.Keys - left)
      decreases left
    {
      var id := Pick(left);
      assert gs.Keys - (left - {id}) == (gs.Keys - left) + {id};
      left := left - {id};
      if gs[id].parent != 0 {
        var siblings := ChildList(children, gs[id].parent);
        assert forall b :: b in siblings + [id] <==> b in siblings || b == id;
        children := children[gs[id].parent := siblings + [id]];
      }
    }
    assert gs.Keys - {} == gs.Keys;
  }

  /** What the walk from a root has gathered, with the queue still to look at. */
  ghost predicate Walked(gs: Records, root: int, taken: set<int>, ids: seq<int>, queue: seq<int>) {
    && NoRepeats(ids)
    && (forall id :: id in ids ==> Reaches(gs, taken, root, id))
    && (forall q :: q in queue ==> q in gs && (Labelled(gs, q) || q in taken || Reaches(gs, taken, root, q)))
    && (forall a, b :: a in ids && Child(gs, a, b) ==> b in ids || b in taken || b in queue)
    && (root in ids || root in queue)
  }

  lemma WalkStep(gs: Records, root: int, taken: set<int>, ids: seq<int>, queue: seq<int>, children: seq<int>)
    requires Walked(gs, root, taken, ids, queue) && queue != []
    requires queue[0] !in taken && queue[0] !in ids && !Labelled(gs, queue[0])
    requires forall b :: b in children <==> Child(gs, queue[0], b)
    ensures Walked(gs, root, taken, ids + [queue[0]], queue[1..] + children)
  {
    var cur, rest := queue[0], queue[1..] + children;
    assert forall q :: q in queue <==> q == cur || q in queue[1..];
    assert forall x :: x in ids + [cur] <==> x in ids || x == cur;
    assert forall x :: x in rest <==> x in queue[1..] || x in children;
    assert cur in queue;
    forall b | b in children && !Labelled(gs, b) && b !in taken
      ensures Reaches(gs, taken, root, b)
    {
      ChildReached(gs, taken, root, cur, b);
    }
  }

  lemma WalkSkip(gs: Records, root: int, taken: set<int>, ids: seq<int>, queue: seq<int>)
    requires Walked(gs, root, taken, ids, queue) && queue != [] && (queue[0] in taken || queue[0] in ids)
    requires root !in taken
    ensures Walked(gs, root, taken, ids, queue[1..])
  {
  }

  /** With nothing left to look at, everything reached has been gathered. */
  lemma WalkComplete(gs: Records, root: int, taken: set<int>, ids: seq<int>, id: int)
    requires Walked(gs, root, taken, ids, []) && Reaches(gs, taken, root, id)
    ensures id in ids
  {
    var path :| ChainBetween(gs, taken, root, id, path);
    var held := set x | x in ids;
    ClosedHoldsChain(gs, taken, held, path);
  }

  /** Breadth first over a root: exactly what it reaches through goroutines that are not taken, each once. */
  method WalkDescendants(gs: Records, children: map<int, seq<int>>, root: int, taken: set<int>)
    returns (ids: seq<int>, claimed: set<int>)
    requires Indexes(gs, children, gs.Keys) && Root(gs, root) && root !in taken
    requires forall id :: Labelled(gs, id) ==> id in taken
    ensures NoRepeats(ids) && forall id :: id in ids <==> Reaches(gs, taken, root, id)
    ensures forall id :: id in claimed <==> id in taken || id in ids
  {
    ReachesItself(gs, taken, root);
    var queue := [root];
    ids, claimed := [], taken;
    while |queue| > 0
      invariant Walked(gs, root, taken, ids, queue)
      invariant forall id :: id in claimed <==> id in taken || id in ids
      decreases gs.Keys - claimed, |queue|
    {
      var cur := queue[0];
      if cur in claimed {
        WalkSkip(gs, root, taken, ids, queue);
        queue := queue[1..];
      } else {
        WalkStep(gs, root, taken, ids, queue, ChildList(children, cur));
        assert cur in queue;
        claimed := claimed + {cur};
        ids := ids + [cur];
        queue := queue[1..] + ChildList(children, cur);
      }
    }
    forall id | Reaches(gs, taken, root, id)
      ensures id in ids
    {
      WalkComplete(gs, root, taken, ids, id);
    }
  }
}
