/** The stack snapshots an engine keeps, goroutine by goroutine. */
module StackHistory {
  import opened Model

  type History = map<int, seq<Snapshot>>

  function HistoryAt(h: History, id: int): seq<Snapshot> {
    if id in h then h[id] else []
  }

  /** The last cap snapshots; a cap of 0 or less keeps all. */
  function KeepLast(s: seq<Snapshot>, cap: int): seq<Snapshot> {
    if cap <= 0 || |s| <= cap then s else s[|s| - cap..]
  }

  /** What is dropped is the oldest, and only what is beyond the cap. */
  lemma KeepLastMeans(s: seq<Snapshot>, cap: int)
    ensures var r := KeepLast(s, cap);
      && |r| <= |s| && s == s[..|s| - |r|] + r
      && (cap > 0 ==> |r| <= cap) && (|r| < |s| ==> |r| == cap)
  {
  }

  /** The snapshots of one goroutine, in order. */
  function StacksOf(stacks: seq<Snapshot>, id: int): seq<Snapshot> {
    if stacks == [] then []
    else
      var last := stacks[|stacks| - 1];
      StacksOf(stacks[..|stacks| - 1], id) + (if last.goroutine == id then [last] else [])
  }

  /** No goroutine has an empty list, and snapshots are kept under their own goroutine. */
  ghost predicate Filed(h: History) {
    forall id :: id in h ==> h[id] != [] && forall sn :: sn in h[id] ==> sn.goroutine == id
  }

  /** The history is stacks, sorted into goroutines. */
  ghost predicate Holds(h: History, stacks: seq<Snapshot>) {
    forall id :: HistoryAt(h, id) == StacksOf(stacks, id)
  }

  lemma {:induction false} StacksConcat(a: seq<Snapshot>, b: seq<Snapshot>, id: int)
    ensures StacksOf(a + b, id) == StacksOf(a, id) + StacksOf(b, id)
  {
    if b == [] {
      assert a + b == a;
    } else {
      assert (a + b)[..|a + b| - 1] == a + b[..|b| - 1];
      StacksConcat(a, b[..|b| - 1], id);
    }
  }

  lemma {:induction false} OneGoroutine(stacks: seq<Snapshot>, k: int, id: int)
    requires forall sn :: sn in stacks ==> sn.goroutine == k
    ensures StacksOf(stacks, id) == if id == k then stacks else []
  {
    if stacks != [] {
      var rest, last := stacks[..|stacks| - 1], stacks[|stacks| - 1];
      assert last in stacks && stacks == rest + [last];
      OneGoroutine(rest, k, id);
    }
  }

  // ── How many there are ─────────────────────────────────────────────────────

  ghost function Count<K, T>(h: map<K, seq<T>>): nat
    decreases h.Keys
  {
    if h == map[] then 0
    else
      var k :| k in h;
      |h[k]| + Count(h - {k})
  }

  lemma {:induction false} CountOut<K, T>(h: map<K, seq<T>>, k: K)
    requires k in h
    ensures Count(h) == |h[k]| + Count(h - {k})
    decreases h.Keys
  {
    var first :| first in h && Count(h) == |h[first]| + Count(h - {first});
    if first != k {
      CountOut(h - {first}, k);
      CountOut(h - {k}, first);
      assert h - {first} - {k} == h - {k} - {first};
    }
  }

  lemma CountUpdate(h: History, k: int, s: seq<Snapshot>)
    ensures Count(h[k := s]) == Count(h) - |HistoryAt(h, k)| + |s|
  {
    CountOut(h[k := s], k);
    assert h[k := s] - {k} == h - {k};
    if k in h {
      CountOut(h, k);
    } else {
      assert h - {k} == h;
    }
  }

  lemma OneMoreHistory(stacks: seq<Snapshot>, history: seq<Snapshot>, k: int, id: int)
    requires StacksOf(stacks, k) == [] && forall sn :: sn in history ==> sn.goroutine == k
    ensures StacksOf(stacks + history, id) == if id == k then history else StacksOf(stacks, id)
  {
    StacksConcat(stacks, history, id);
    OneGoroutine(history, k, id);
    if id == k {
      JoinEmpty(history);
    } else {
      JoinEmpty(StacksOf(stacks, id));
    }
  }

  lemma JoinEmpty(s: seq<Snapshot>)
    ensures [] + s == s && s + [] == s
  {
  }
}
