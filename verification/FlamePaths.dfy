/** Call paths and how many goroutines take them. */
module FlamePaths {
  import opened Collections
  import opened Model

  /** Function names from the outermost call inwards. */
  type Path = seq<string>

  /** An unset filter admits every state. */
  predicate Selected(g: Goroutine, filter: State) {
    filter == Unset || g.state == filter
  }

  /** Frames come innermost first; nameless ones are left out. */
  function Names(frames: seq<StackFrame>): Path {
    if frames == [] then [] else Names(frames[1..]) + (if frames[0].func != "" then [frames[0].func] else [])
  }

  function Depth(frames: seq<StackFrame>, maxDepth: int): (d: nat)
    ensures d <= |frames|
  {
    if maxDepth > 0 && |frames| > maxDepth then maxDepth else |frames|
  }

  function PathOf(g: Goroutine, maxDepth: int): Path {
    if g.lastStack.None? then []
    else
      var frames := g.lastStack.value.frames;
      Names(frames[..Depth(frames, maxDepth)])
  }

  /** The paths of the selected goroutines. */
  function Paths(goroutines: seq<Goroutine>, filter: State, maxDepth: int): seq<Path> {
    if goroutines == [] then []
    else
      var rest, g := Paths(goroutines[..|goroutines| - 1], filter, maxDepth), goroutines[|goroutines| - 1];
      if Selected(g, filter) then rest + [PathOf(g, maxDepth)] else rest
  }

  /** Every admitted goroutine has its path in the list, once for each time it is listed. */
  ghost function OfAdmitted(f: Path -> int, filter: State, maxDepth: int): Goroutine -> int {
    (g: Goroutine) => if filter == Unset || g.state == filter then f(PathOf(g, maxDepth)) else 0
  }

  lemma {:induction false} PathsOfAdmitted(goroutines: seq<Goroutine>, filter: State, maxDepth: int, f: Path -> int)
    ensures Total(f, Paths(goroutines, filter, maxDepth)) == Total(OfAdmitted(f, filter, maxDepth), goroutines)
  {
    if goroutines != [] {
      PathsOfAdmitted(goroutines[..|goroutines| - 1], filter, maxDepth, f);
      TotalSnoc(f, Paths(goroutines[..|goroutines| - 1], filter, maxDepth),
                PathOf(goroutines[|goroutines| - 1], maxDepth));
    }
  }

  /** The path is read off the innermost frames, as many as asked for. */
  lemma PathMeans(g: Goroutine, maxDepth: int, frames: seq<StackFrame>)
    requires g.lastStack.Some? && g.lastStack.value.frames == frames
    ensures maxDepth <= 0 || |frames| <= maxDepth ==> PathOf(g, maxDepth) == Names(frames)
    ensures 0 < maxDepth < |frames| ==> PathOf(g, maxDepth) == Names(frames[..maxDepth])
  {
    assert frames[..|frames|] == frames;
  }

  /** Inner frames come after outer ones. */
  lemma {:induction false} NamesMean(inner: seq<StackFrame>, outer: seq<StackFrame>)
    ensures Names(inner + outer) == Names(outer) + Names(inner)
  {
    if inner == [] {
      assert inner + outer == outer;
    } else {
      NamesMean(inner[1..], outer);
      assert (inner + outer)[1..] == inner[1..] + outer;
      NamesJoin(Names(outer), Names(inner[1..]), NameOf(inner[0]));
    }
  }

  lemma NamesJoin(a: Path, b: Path, c: Path)
    ensures (a + b) + c == a + (b + c)
  {
  }

  /** A frame has its name, if any. */
  function NameOf(f: StackFrame): (p: Path)
    ensures p == Names([f])
  {
    assert [f][1..] == [];
    if f.func != "" then [f.func] else []
  }

  lemma PathsStep(goroutines: seq<Goroutine>, i: nat, filter: State, maxDepth: int)
    requires i < |goroutines|
    ensures Paths(goroutines[..i + 1], filter, maxDepth) == Paths(goroutines[..i], filter, maxDepth)
      + (if Selected(goroutines[i], filter) then [PathOf(goroutines[i], maxDepth)] else [])
  {
    assert goroutines[..i + 1][..i] == goroutines[..i];
  }

  lemma NamesStep(frames: seq<StackFrame>, i: nat, depth: nat)
    requires i < depth <= |frames|
    ensures frames[i].func != "" ==> Names(frames[i..depth]) == Names(frames[i + 1..depth]) + [frames[i].func]
    ensures frames[i].func == "" ==> Names(frames[i..depth]) == Names(frames[i + 1..depth])
  {
  }

  // ── Counting ───────────────────────────────────────────────────────────────

  function Through(p: Path): Path -> int {
    (q: Path) => if p <= q then 1 else 0
  }

  function EndsAt(p: Path): Path -> int {
    (q: Path) => if q == p then 1 else 0
  }

  /** How many paths go through p. */
  function Count(paths: seq<Path>, p: Path): int {
    Total(Through(p), paths)
  }

  /** How many paths end at p. */
  function Exact(paths: seq<Path>, p: Path): int {
    Total(EndsAt(p), paths)
  }

  ghost predicate Reached(paths: seq<Path>, p: Path) {
    exists q :: q in paths && p <= q
  }

  lemma ReachedSnoc(paths: seq<Path>, q: Path, p: Path)
    ensures Reached(paths + [q], p) <==> Reached(paths, p) || p <= q
  {
    if Reached(paths, p) {
      var r :| r in paths && p <= r;
      assert r in paths + [q];
    }
    assert q in paths + [q];
  }

  lemma {:induction false} CountReached(paths: seq<Path>, p: Path)
    ensures Count(paths, p) >= 0
    ensures Count(paths, p) > 0 <==> Reached(paths, p)
  {
    if paths != [] {
      var rest, q := paths[..|paths| - 1], paths[|paths| - 1];
      CountReached(rest, p);
      assert paths == rest + [q];
      ReachedSnoc(rest, q, p);
    }
  }

  lemma {:induction false} CountAll(paths: seq<Path>)
    ensures Count(paths, []) == |paths|
  {
    if paths != [] {
      CountAll(paths[..|paths| - 1]);
    }
  }

  /** A path one name longer goes through one path more. */
  lemma CountLonger(paths: seq<Path>, pre: Path, x: string, p: Path)
    ensures Count(paths + [pre + [x]], p) == Count(paths + [pre], p) + (if p == pre + [x] then 1 else 0)
    ensures Reached(paths + [pre + [x]], p) <==> Reached(paths + [pre], p) || p == pre + [x]
  {
    TotalSnoc(Through(p), paths, pre + [x]);
    TotalSnoc(Through(p), paths, pre);
    PrefixLonger(p, pre, x);
    ReachedSnoc(paths, pre + [x], p);
    ReachedSnoc(paths, pre, p);
  }

  lemma PrefixLonger(p: Path, pre: Path, x: string)
    ensures p <= pre + [x] <==> p <= pre || p == pre + [x]
  {
  }

  /** A path not begun goes through the root alone. */
  lemma CountBegun(paths: seq<Path>, p: Path)
    ensures Count(paths + [[]], p) == Count(paths, p) + (if p == [] then 1 else 0)
    ensures Reached(paths + [[]], p) <==> Reached(paths, p) || p == []
  {
    TotalSnoc(Through(p), paths, []);
    ReachedSnoc(paths, [], p);
  }

  // ── Through a node and through its children ────────────────────────────────

  ghost function CountBelow(paths: seq<Path>, p: Path): string -> int {
    (x: string) => Count(paths, p + [x])
  }

  lemma {:induction false} NoneWithin(p: Path, names: seq<string>)
    ensures Total(CountBelow([], p), names) == 0
  {
    if names != [] {
      NoneWithin(p, names[..|names| - 1]);
    }
  }

  lemma {:induction false} OneMoreWithin(paths: seq<Path>, q: Path, p: Path, names: seq<string>)
    requires NoRepeats(names)
    ensures Total(CountBelow(paths + [q], p), names)
         == Total(CountBelow(paths, p), names) + (if exists i :: 0 <= i < |names| && p + [names[i]] <= q then 1 else 0)
  {
    if names != [] {
      var rest, x := names[..|names| - 1], names[|names| - 1];
      assert forall i :: 0 <= i < |rest| ==> rest[i] == names[i];
      OneMoreWithin(paths, q, p, rest);
      TotalSnoc(Through(p + [x]), paths, q);
      if p + [x] <= q {
        forall i | 0 <= i < |rest|
          ensures !(p + [rest[i]] <= q)
        {
          assert rest[i] != x && q[|p|] == (p + [x])[|p|] && (p + [rest[i]])[|p|] == rest[i];
        }
      }
    }
  }

  /** The paths through p end there or go on through one of the names below it. */
  lemma {:induction false} ThroughChildren(paths: seq<Path>, p: Path, names: seq<string>)
    requires NoRepeats(names)
    requires forall q :: q in paths && p < q ==> q[|p|] in names
    ensures Count(paths, p) == Exact(paths, p) + Total(CountBelow(paths, p), names)
  {
    if paths == [] {
      NoneWithin(p, names);
    } else {
      var rest, q := paths[..|paths| - 1], paths[|paths| - 1];
      assert paths == rest + [q] && q in paths && forall y :: y in rest ==> y in paths;
      ThroughChildren(rest, p, names);
      OneMoreWithin(rest, q, p, names);
      if p < q {
        var i :| 0 <= i < |names| && names[i] == q[|p|];
        assert p + [names[i]] == q[..|p| + 1];
      }
    }
  }
}
