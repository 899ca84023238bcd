/** The folded form of a flamegraph: one line for every call path, with its count. */
module FoldedStacks {
  import opened Collections
  import opened CycleKeys
  import opened FlamePaths
  import opened FlameTree
  import opened Model

  // ── Lines ──────────────────────────────────────────────────────────────────

  /** strings.Join with a semicolon. */
  function Join(parts: seq<string>): string {
    if parts == [] then "" else if |parts| == 1 then parts[0] else parts[0] + ";" + Join(parts[1..])
  }

  function Line(p: Path): string {
    Join(["root"] + p)
  }

  function Tail(p: Path): (s: string)
    ensures s == "" || s[0] == ';'
  {
    if p == [] then "" else ";" + p[0] + Tail(p[1..])
  }

  lemma {:induction false} JoinIsTail(first: string, p: Path)
    ensures Join([first] + p) == first + Tail(p)
    decreases |p|
  {
    if p != [] {
      assert ([first] + p)[1..] == p == [p[0]] + p[1..];
      JoinIsTail(p[0], p[1..]);
      assert first + ";" + (p[0] + Tail(p[1..])) == first + (";" + p[0] + Tail(p[1..]));
    }
  }

  /** The root, then every name of the path after a semicolon. */
  lemma LineOfPath(p: Path, x: string)
    ensures Line([]) == "root" && Line(p + [x]) == Line(p) + ";" + x
  {
    JoinIsTail("root", []);
    JoinIsTail("root", p);
    JoinIsTail("root", p + [x]);
    TailSnoc(p, x);
  }

  lemma {:induction false} TailSnoc(p: Path, x: string)
    ensures Tail(p + [x]) == Tail(p) + ";" + x
  {
    if p != [] {
      TailSnoc(p[1..], x);
      assert (p + [x])[1..] == p[1..] + [x];
    } else {
      assert (p + [x])[1..] == [];
    }
  }

  ghost predicate NoSemicolons(p: Path) {
    forall s :: s in p ==> ';' !in s
  }

  lemma SplitAtSemicolon(u: string, v: string, r: string, s: string)
    requires ';' !in u && ';' !in v && u + r == v + s
    requires (r == "" || r[0] == ';') && (s == "" || s[0] == ';')
    ensures u == v && r == s
  {
    var t := u + r;
    assert forall i :: 0 <= i < |u| ==> t[i] == u[i];
    assert forall i :: 0 <= i < |v| ==> t[i] == v[i];
    assert |u| < |t| ==> t[|u|] == ';';
    assert |v| < |t| ==> t[|v|] == ';';
    assert u == t[..|u|] && v == t[..|v|] && r == t[|u|..] && s == t[|v|..];
  }

  lemma {:induction false} TailsDiffer(p: Path, q: Path)
    requires NoSemicolons(p) && NoSemicolons(q) && Tail(p) == Tail(q)
    ensures p == q
  {
    if p != [] && q != [] {
      assert Tail(p)[1..] == p[0] + Tail(p[1..]) && Tail(q)[1..] == q[0] + Tail(q[1..]);
      SplitAtSemicolon(p[0], q[0], Tail(p[1..]), Tail(q[1..]));
      TailsDiffer(p[1..], q[1..]);
      assert p == [p[0]] + p[1..] && q == [q[0]] + q[1..];
    }
  }

  /** Different paths read differently, as long as no name holds the separator. */
  lemma LinesDiffer(p: Path, q: Path)
    requires NoSemicolons(p) && NoSemicolons(q) && Line(p) == Line(q)
    ensures p == q
  {
    JoinIsTail("root", p);
    JoinIsTail("root", q);
    assert ("root" + Tail(p))[4..] == Tail(p) && ("root" + Tail(q))[4..] == Tail(q);
    TailsDiffer(p, q);
  }

  /** A name that holds the separator reads like two names. */
  lemma SemicolonsMerge()
    ensures Line(["a;b"]) == Line(["a", "b"]) && ["a;b"] != ["a", "b"]
  {
    JoinIsTail("root", ["a;b"]);
    JoinIsTail("root", ["a", "b"]);
    assert Tail(["a", "b"]) == ";a" + Tail(["b"]);
    assert ["b"][1..] == [] && ["a;b"][1..] == [];
    assert Tail(["b"]) == ";b" && Tail(["a;b"]) == ";a;b";
    assert |["a;b"]| == 1;
  }

  // ── Counts ─────────────────────────────────────────────────────────────────

  function ReadsAs(line: string): Path -> int {
    (q: Path) => if Line(q) == line then 1 else 0
  }

  /** Every line with the number of paths that read like it. */
  ghost predicate Folded(counts: map<string, nat>, paths: seq<Path>) {
    forall line :: CountAt(counts, line) == Total(ReadsAs(line), paths) && (line in counts ==> counts[line] > 0)
  }

  /** The counts of every line some path reads like. */
  ghost function FoldedCounts(paths: seq<Path>): (counts: map<string, nat>)
    ensures Folded(counts, paths)
  {
    forall line
      ensures Total(ReadsAs(line), paths) >= 0
      ensures Total(ReadsAs(line), paths) > 0 <==> exists q :: q in paths && Line(q) == line
    {
      ReadsSome(paths, line);
    }
    map q | q in paths :: Line(q) := Total(ReadsAs(Line(q)), paths)
  }

  lemma {:induction false} ReadsSome(paths: seq<Path>, line: string)
    ensures Total(ReadsAs(line), paths) >= 0
    ensures Total(ReadsAs(line), paths) > 0 <==> exists q :: q in paths && Line(q) == line
  {
    if paths != [] {
      var rest, last := paths[..|paths| - 1], paths[|paths| - 1];
      ReadsSome(rest, line);
      assert paths == rest + [last];
      assert forall q :: q in paths <==> q in rest || q == last;
    }
  }

  /** There is only one such map. */
  lemma FoldedOnce(counts: map<string, nat>, paths: seq<Path>)
    requires Folded(counts, paths)
    ensures counts == FoldedCounts(paths)
  {
    var all := FoldedCounts(paths);
    forall line
      ensures CountAt(counts, line) == CountAt(all, line)
      ensures line in counts <==> line in all
    {
      assert CountAt(counts, line) == Total(ReadsAs(line), paths) == CountAt(all, line);
    }
  }

  function CountAt(counts: map<string, nat>, line: string): nat {
    if line in counts then counts[line] else 0
  }

  /** As many paths end at p as read like it, except for others that read the same. */
  lemma {:induction false} ExactLines(paths: seq<Path>, p: Path)
    ensures Total(ReadsAs(Line(p)), paths) >= Exact(paths, p)
    ensures Total(ReadsAs(Line(p)), paths) == Exact(paths, p)
       <==> forall q :: q in paths && Line(q) == Line(p) ==> q == p
  {
    if paths != [] {
      var rest, last := paths[..|paths| - 1], paths[|paths| - 1];
      ExactLines(rest, p);
      assert paths == rest + [last];
      assert forall q :: q in paths <==> q in rest || q == last;
    }
  }

  /**
   The count of a line is what the tree's node counts beyond its children, exactly when no other path
   reads the same.
   */
  lemma FoldedMatchesTree(nodes: Nodes, views: map<Path, View>, paths: seq<Path>, p: Path)
    requires Tree(nodes, views, paths) && p in nodes
    ensures CountAt(FoldedCounts(paths), Line(p)) == views[p].value - Total(ValueBelow(views, p), views[p].children)
       <==> forall q :: q in paths && Line(q) == Line(p) ==> q == p
  {
    NodeMinusChildren(nodes, views, paths, p);
    ExactLines(paths, p);
  }

  /** With names free of the separator the folded counts are the tree's. */
  lemma FoldedMatchesPlainTree(nodes: Nodes, views: map<Path, View>, paths: seq<Path>, p: Path)
    requires Tree(nodes, views, paths) && p in nodes
    requires NoSemicolons(p) && forall q :: q in paths ==> NoSemicolons(q)
    ensures CountAt(FoldedCounts(paths), Line(p)) == views[p].value - Total(ValueBelow(views, p), views[p].children)
  {
    forall q | q in paths && Line(q) == Line(p)
      ensures q == p
    {
      LinesDiffer(p, q);
    }
    FoldedMatchesTree(nodes, views, paths, p);
  }

  // ── FoldedStacks ───────────────────────────────────────────────────────────

  function LinesOf(paths: seq<Path>): seq<string> {
    seq(|paths|, i requires 0 <= i < |paths| => Line(paths[i]))
  }

  /** The path's names after the root, outermost first. */
  method Parts(frames: seq<StackFrame>, depth: nat) returns (parts: seq<string>)
    requires depth <= |frames|
    ensures parts == ["root"] + Names(frames[..depth])
  {
    parts := ["root"];
    var i := depth;
    assert frames[depth..depth] == [];
    while i > 0
      invariant 0 <= i <= depth && parts == ["root"] + Names(frames[i..depth])
    {
      i := i - 1;
      NamesStep(frames, i, depth);
      if frames[i].func != "" {
        parts := parts + [frames[i].func];
      }
    }
    assert frames[0..depth] == frames[..depth];
  }

  method Lines(goroutines: seq<Goroutine>, stateFilter: State, maxDepth: int) returns (lines: seq<string>)
    ensures lines == LinesOf(Paths(goroutines, stateFilter, maxDepth))
  {
    lines := [];
    for i := 0 to |goroutines|
      invariant lines == LinesOf(Paths(goroutines[..i], stateFilter, maxDepth))
    {
      var g := goroutines[i];
      assert goroutines[..i + 1][..i] == goroutines[..i];
      if !(stateFilter != Unset && g.state != stateFilter) {
        if g.lastStack.None? || |g.lastStack.value.frames| == 0 {
          assert ["root"] + [] == ["root"];
          lines := lines + ["root"];
        } else {
          var frames := g.lastStack.value.frames;
          var depth := |frames|;
          if maxDepth > 0 && depth > maxDepth {
            depth := maxDepth;
          }
          var parts := Parts(frames, depth);
          lines := lines + [Join(parts)];
        }
      }
    }
    assert goroutines[..|goroutines|] == goroutines;
  }

  method CountLines(lines: seq<string>, ghost paths: seq<Path>) returns (counts: map<string, nat>)
    requires lines == LinesOf(paths)
    ensures Folded(counts, paths)
  {
    counts := map[];
    for i := 0 to |lines|
      invariant Folded(counts, paths[..i])
    {
      assert paths[..i + 1][..i] == paths[..i];
      counts := counts[lines[i] := (if lines[i] in counts then counts[lines[i]] else 0) + 1];
    }
    assert paths[..|paths|] == paths;
  }

  function CountedLine(line: string, count: nat): string {
    line + " " + Digits(count) + "\n"
  }

  /** The lines in order, each once, with their counts. */
  function Render(sorted: seq<string>, counts: map<string, nat>): string {
    if sorted == [] then ""
    else
      var last := sorted[|sorted| - 1];
      Render(sorted[..|sorted| - 1], counts) + CountedLine(last, CountAt(counts, last))
  }

  ghost predicate KeysInOrder(sorted: seq<string>, counts: map<string, nat>) {
    && (forall i, j :: 0 <= i < j < |sorted| ==> StringLess(sorted[i], sorted[j]))
    && (forall line :: line in sorted <==> line in counts)
  }

  method SortedKeys(counts: map<string, nat>) returns (sorted: seq<string>)
    ensures KeysInOrder(sorted, counts)
  {
    var keys: seq<string> := [];
    var left := counts.Keys;
    while left != {}
      invariant left <= counts.Keys && NoRepeats(keys)
      invariant forall line :: line in keys <==> line in counts && line !in left
      decreases left
    {
      var line := Pick(left);
      left := left - {line};
      keys := keys + [line];
    }
    StringsOrder();
    sorted := SortSlice(keys, StringLess);
    KeysSorted(keys, sorted, counts);
  }

  lemma StringsOrder()
    ensures Orders(StringLess)
  {
    forall a, b, c
      ensures StringLess(a, b) ==> !StringLess(b, a)
      ensures !StringLess(a, b) && !StringLess(b, c) ==> !StringLess(a, c)
    {
      StringAsymmetric(a, b);
      if !StringLess(a, b) && !StringLess(b, c) {
        StringTransitive(a, b, c);
      }
    }
  }

  lemma KeysSorted(keys: seq<string>, sorted: seq<string>, counts: map<string, nat>)
    requires NoRepeats(keys) && forall line :: line in keys <==> line in counts
    requires multiset(sorted) == multiset(keys) && Sorted(sorted, StringLess)
    ensures KeysInOrder(sorted, counts)
  {
    ghost var self := (s: string) => s;
    assert DistinctBy(self, keys);
    DistinctPermutes(self, keys, sorted);
    forall i, j | 0 <= i < j < |sorted|
      ensures StringLess(sorted[i], sorted[j])
    {
      assert self(sorted[i]) != self(sorted[j]);
      StringAsymmetric(sorted[i], sorted[j]);
    }
    forall line
      ensures line in sorted <==> line in keys
    {
      assert line in multiset(sorted) <==> line in multiset(keys);
    }
  }

  function Reversed(s: string): (r: string)
    ensures |r| == |s|
  {
    if s == "" then "" else Reversed(s[1..]) + [s[0]]
  }

  lemma {:induction false} ReversedAt(s: string, k: nat)
    requires k < |s|
    ensures Reversed(s)[k] == s[|s| - 1 - k]
  {
    if k < |s| - 1 {
      ReversedAt(s[1..], k);
    }
  }

  lemma {:induction false} ReversedSnoc(s: string, c: char)
    ensures Reversed(s + [c]) == [c] + Reversed(s)
  {
    if s != "" {
      assert (s + [c])[1..] == s[1..] + [c];
      ReversedSnoc(s[1..], c);
    }
  }

  /** Decimal digits, last one first, then turned around. */
  method Itoa(num: nat) returns (s: string)
    ensures s == Digits(num) && WritesOut(s, num)
  {
    DigitsWriteOut(num);
    if num == 0 {
      return "0";
    }
    var n, buf := num, "";
    while n > 0
      invariant n >= 0 && (n > 0 ==> Digits(num) == Digits(n) + Reversed(buf))
      invariant n == 0 ==> Digits(num) == Reversed(buf)
    {
      var digit := ('0' as int + n % 10) as char;
      ReversedSnoc(buf, digit);
      assert n >= 10 ==> Digits(n) == Digits(n / 10) + [digit];
      assert n < 10 ==> Digits(n) == [digit];
      buf := buf + [digit];
      n := n / 10;
    }
    s := Reverse(buf);
  }

  method Reverse(buf: string) returns (s: string)
    ensures s == Reversed(buf)
  {
    s := buf;
    var i, j := 0, |buf| - 1;
    while i < j
      invariant 0 <= i && i + j == |buf| - 1 && |s| == |buf| && i <= j + 1
      invariant forall k :: 0 <= k < i || j < k < |buf| ==> s[k] == buf[|buf| - 1 - k]
      invariant forall k :: i <= k <= j ==> s[k] == buf[k]
    {
      s := s[i := s[j]][j := s[i]];
      i, j := i + 1, j - 1;
    }
    forall k | 0 <= k < |buf|
      ensures s[k] == Reversed(buf)[k]
    {
      ReversedAt(buf, k);
    }
  }

  /** The lines of the counts in byte order. */
  ghost predicate Prints(text: string, counts: map<string, nat>) {
    exists sorted :: KeysInOrder(sorted, counts) && text == Render(sorted, counts)
  }

  /** One line for every distinct call path, in order, with the number of goroutines that read like it. */
  method FoldedStacks(goroutines: seq<Goroutine>, stateFilter: State, maxDepth: int) returns (text: string)
    ensures Prints(text, FoldedCounts(Paths(goroutines, stateFilter, maxDepth)))
  {
    var lines := Lines(goroutines, stateFilter, maxDepth);
    var counts := CountLines(lines, Paths(goroutines, stateFilter, maxDepth));
    FoldedOnce(counts, Paths(goroutines, stateFilter, maxDepth));
    var sorted := SortedKeys(counts);
    text := PrintLines(sorted, counts);
  }

  /** One line for every key. */
  method PrintLines(sorted: seq<string>, counts: map<string, nat>) returns (text: string)
    requires forall key :: key in sorted ==> key in counts
    ensures text == Render(sorted, counts)
  {
    text := "";
    for i := 0 to |sorted|
      invariant text == Render(sorted[..i], counts)
    {
      assert sorted[..i + 1][..i] == sorted[..i];
      assert sorted[i] in sorted;
      var count := Itoa(counts[sorted[i]]);
      text := text + sorted[i] + " " + count + "\n";
    }
    assert sorted[..|sorted|] == sorted;
  }
}
