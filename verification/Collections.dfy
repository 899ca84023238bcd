/** Sets walked in no particular order, sorting by a comparison, and totals over sequences. */
module Collections {
  /** Some element, any: the order in which Go walks a map is not specified. */
  method Pick<T>(s: set<T>) returns (x: T)
    requires s != {}
    ensures x in s
  {
    x :| x in s;
  }

  // ── sort.Slice ─────────────────────────────────────────────────────────────

  /** A comparison that sorts: asymmetric, with "not after" transitive. */
  ghost predicate Orders<T(!new)>(less: (T, T) -> bool) {
    && (forall a, b :: less(a, b) ==> !less(b, a))
    && (forall a, b, c :: !less(a, b) && !less(b, c) ==> !less(a, c))
  }

  ghost predicate Sorted<T>(s: seq<T>, less: (T, T) -> bool) {
    forall i, j :: 0 <= i < j < |s| ==> !less(s[j], s[i])
  }

  /** The same elements in order; how ties end up is not specified. */
  method SortSlice<T(!new)>(s: seq<T>, less: (T, T) -> bool) returns (r: seq<T>)
    requires Orders(less)
    ensures multiset(r) == multiset(s) && |r| == |s|
    ensures Sorted(r, less)
  {
    r := [];
    for i := 0 to |s|
      invariant |r| == i && multiset(r) == multiset(s[..i]) && Sorted(r, less)
    {
      ghost var before := r;
      var p := PlaceFor(r, s[i], less);
      InsertSorted(r, s[i], p, less);
      InsertAdds(r, s[i], p);
      TakeOneMore(s, i);
      r := r[..p] + [s[i]] + r[p..];
      assert multiset(before + [s[i]]) == multiset(s[..i] + [s[i]]);
    }
    assert s[..|s|] == s;
  }

  lemma InsertAdds<T>(r: seq<T>, x: T, p: nat)
    requires p <= |r|
    ensures multiset(r[..p] + [x] + r[p..]) == multiset(r + [x])
  {
    assert r == r[..p] + r[p..];
  }

  /** Before everything at the end that x comes before. */
  method PlaceFor<T(!new)>(r: seq<T>, x: T, less: (T, T) -> bool) returns (p: nat)
    ensures p <= |r| && (p > 0 ==> !less(x, r[p - 1]))
    ensures forall q :: p <= q < |r| ==> less(x, r[q])
  {
    p := |r|;
    while p > 0 && less(x, r[p - 1])
      invariant p <= |r|
      invariant forall q :: p <= q < |r| ==> less(x, r[q])
    {
      p := p - 1;
    }
  }

  lemma InsertSorted<T(!new)>(r: seq<T>, x: T, p: nat, less: (T, T) -> bool)
    requires Orders(less) && Sorted(r, less) && p <= |r|
    requires forall q :: p <= q < |r| ==> less(x, r[q])
    requires p > 0 ==> !less(x, r[p - 1])
    ensures Sorted(r[..p] + [x] + r[p..], less)
  {
  }

  lemma TakeOneMore<T>(s: seq<T>, k: nat)
    requires k < |s|
    ensures s[..k + 1] == s[..k] + [s[k]]
  {
  }

  // ── Totals ─────────────────────────────────────────────────────────────────

  function Total<T>(f: T -> int, s: seq<T>): int {
    if s == [] then 0 else Total(f, s[..|s| - 1]) + f(s[|s| - 1])
  }

  lemma {:induction false} TotalConcat<T>(f: T -> int, a: seq<T>, b: seq<T>)
    ensures Total(f, a + b) == Total(f, a) + Total(f, b)
  {
    if b == [] {
      assert a + b == a;
    } else {
      assert (a + b)[..|a + b| - 1] == a + b[..|b| - 1];
      TotalConcat(f, a, b[..|b| - 1]);
    }
  }

  lemma TotalSnoc<T>(f: T -> int, a: seq<T>, x: T)
    ensures Total(f, a + [x]) == Total(f, a) + f(x)
  {
  }

  lemma Cancel<T>(m: multiset<T>, n: multiset<T>, x: T)
    requires m + multiset{x} == n + multiset{x}
    ensures m == n
  {
    assert m == (m + multiset{x}) - multiset{x};
    assert n == (n + multiset{x}) - multiset{x};
  }

  /** Totals do not depend on order. */
  lemma {:induction false} TotalPermutes<T>(f: T -> int, a: seq<T>, b: seq<T>)
    requires multiset(a) == multiset(b)
    ensures Total(f, a) == Total(f, b)
  {
    if a == [] {
      assert |multiset(b)| == 0;
    } else {
      var rest, x := a[..|a| - 1], a[|a| - 1];
      assert a == rest + [x];
      assert x in multiset(b);
      var i :| 0 <= i < |b| && b[i] == x;
      assert b == b[..i] + [x] + b[i + 1..];
      assert multiset(b) == multiset(b[..i] + b[i + 1..]) + multiset{x};
      assert multiset(a) == multiset(rest) + multiset{x};
      Cancel(multiset(b[..i] + b[i + 1..]), multiset(rest), x);
      TotalPermutes(f, rest, b[..i] + b[i + 1..]);
      TotalConcat(f, b[..i] + [x], b[i + 1..]);
      TotalSnoc(f, b[..i], x);
      TotalConcat(f, b[..i], b[i + 1..]);
    }
  }

  // ── No repeats ─────────────────────────────────────────────────────────────

  ghost predicate NoRepeats<T>(s: seq<T>) {
    forall i, j :: 0 <= i < j < |s| ==> s[i] != s[j]
  }

  lemma AnyOf<T>(s: set<T>) returns (x: T)
    requires s != {}
    ensures x in s
  {
    x :| x in s;
  }

  /** Some list of a set. */
  lemma {:induction false} ListOf<T>(s: set<T>) returns (q: seq<T>)
    ensures NoRepeats(q) && multiset(q) == multiset(s) && forall x :: x in q <==> x in s
  {
    if s == {} {
      q := [];
    } else {
      var x :| x in s;
      var rest := ListOf(s - {x});
      q := rest + [x];
      assert s == (s - {x}) + {x};
    }
  }

  // ── Distinct keys ──────────────────────────────────────────────────────────

  ghost predicate DistinctBy<T, K>(key: T -> K, s: seq<T>) {
    forall i, j :: 0 <= i < j < |s| ==> key(s[i]) != key(s[j])
  }

  ghost function HasKey<T, K>(key: T -> K, k: K): T -> int {
    (x: T) => if key(x) == k then 1 else 0
  }

  lemma {:induction false} AtMostOne<T, K>(key: T -> K, s: seq<T>, k: K)
    requires DistinctBy(key, s)
    ensures Total(HasKey(key, k), s) == if exists i :: 0 <= i < |s| && key(s[i]) == k then 1 else 0
  {
    if s != [] {
      var rest := s[..|s| - 1];
      AtMostOne(key, rest, k);
      assert forall i :: 0 <= i < |rest| ==> rest[i] == s[i];
      if key(s[|s| - 1]) == k {
        assert forall i :: 0 <= i < |rest| ==> key(rest[i]) != k;
      }
    }
  }

  lemma {:induction false} HasKeyNonNegative<T, K>(key: T -> K, k: K, s: seq<T>)
    ensures Total(HasKey(key, k), s) >= 0
  {
    if s != [] {
      HasKeyNonNegative(key, k, s[..|s| - 1]);
    }
  }

  lemma {:induction false} CountedBelow<T, K>(key: T -> K, s: seq<T>, i: nat)
    requires i < |s|
    ensures Total(HasKey(key, key(s[i])), s) >= 1
  {
    var rest := s[..|s| - 1];
    HasKeyNonNegative(key, key(s[i]), rest);
    if i < |s| - 1 {
      CountedBelow(key, rest, i);
    }
  }

  /** Keys stay distinct when a sequence is reordered. */
  lemma DistinctPermutes<T, K>(key: T -> K, a: seq<T>, b: seq<T>)
    requires multiset(a) == multiset(b) && DistinctBy(key, a)
    ensures DistinctBy(key, b)
  {
    forall i, j | 0 <= i < j < |b|
      ensures key(b[i]) != key(b[j])
    {
      var k := key(b[j]);
      AtMostOne(key, a, k);
      TotalPermutes(HasKey(key, k), a, b);
      var upTo := b[..j + 1];
      assert b == upTo + b[j + 1..] && upTo == b[..j] + [b[j]];
      TotalConcat(HasKey(key, k), upTo, b[j + 1..]);
      TotalSnoc(HasKey(key, k), b[..j], b[j]);
      HasKeyNonNegative(key, k, b[j + 1..]);
      if key(b[i]) == k {
        CountedBelow(key, b[..j], i);
      }
    }
  }

  // ── Strings in byte order ──────────────────────────────────────────────────

  function StringLess(a: string, b: string): bool {
    if b == "" then false
    else if a == "" then true
    else a[0] < b[0] || (a[0] == b[0] && StringLess(a[1..], b[1..]))
  }

  /** The strings agree up to k, where a ends or has the lesser character. */
  ghost predicate LessAt(a: string, b: string, k: nat) {
    k <= |a| && k < |b| && a[..k] == b[..k] && (k == |a| || a[k] < b[k])
  }

  /** The order is that of the first difference, a string coming before those it begins. */
  lemma {:induction false} StringLessMeans(a: string, b: string)
    ensures StringLess(a, b) <==> exists k: nat :: LessAt(a, b, k)
  {
    if a == "" && b != "" {
      assert LessAt(a, b, 0);
    } else if a != "" && b != "" && a[0] != b[0] {
      assert a[0] < b[0] ==> LessAt(a, b, 0);
      assert forall k: nat :: LessAt(a, b, k) && k > 0 ==> a[..k][0] == b[..k][0];
    } else if a != "" && b != "" {
      StringLessMeans(a[1..], b[1..]);
      if k: nat :| LessAt(a[1..], b[1..], k) {
        LessAfter(a, b, k);
      }
      if k: nat :| LessAt(a, b, k) {
        LessBefore(a, b, k);
      }
    }
  }

  lemma LessBefore(a: string, b: string, k: nat)
    requires a != "" && b != "" && a[0] == b[0] && LessAt(a, b, k)
    ensures k > 0 && LessAt(a[1..], b[1..], k - 1)
  {
    assert a[1..][..k - 1] == a[..k][1..] && b[1..][..k - 1] == b[..k][1..];
  }

  lemma LessAfter(a: string, b: string, k: nat)
    requires a != "" && b != "" && a[0] == b[0] && LessAt(a[1..], b[1..], k)
    ensures LessAt(a, b, k + 1)
  {
    assert a[..k + 1] == [a[0]] + a[1..][..k] && b[..k + 1] == [b[0]] + b[1..][..k];
  }

  lemma {:induction false} StringAsymmetric(a: string, b: string)
    ensures !(StringLess(a, b) && StringLess(b, a))
    ensures !StringLess(a, b) && !StringLess(b, a) ==> a == b
  {
    if a != "" && b != "" {
      StringAsymmetric(a[1..], b[1..]);
      assert a == [a[0]] + a[1..] && b == [b[0]] + b[1..];
    }
  }

  lemma {:induction false} StringTransitive(a: string, b: string, c: string)
    requires !StringLess(a, b) && !StringLess(b, c)
    ensures !StringLess(a, c)
  {
    if a != "" && b != "" && c != "" {
      if a[0] == b[0] == c[0] {
        StringTransitive(a[1..], b[1..], c[1..]);
      }
    }
  }
}
