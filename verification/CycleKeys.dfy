/** The canonical key of a cycle: rotate the least id to the front and write the ids out in decimal. */
module CycleKeys {
  import opened Collections

  // ── Decimal numbers and the comma-led list ─────────────────────────────────

  predicate IsDigit(c: char) {
    '0' <= c <= '9'
  }

  function DigitValue(c: char): nat
    requires IsDigit(c)
  {
    (c as int) - ('0' as int)
  }

  /** The number a text of digits stands for, read from the most significant digit on. */
  function NumberOf(s: string): nat
    requires forall c :: c in s ==> IsDigit(c)
  {
    if s == "" then 0
    else
      assert s[|s| - 1] in s;
      10 * NumberOf(s[..|s| - 1]) + DigitValue(s[|s| - 1])
  }

  /** s is the number in decimal, without leading zeros. */
  predicate WritesOut(s: string, n: nat) {
    s != "" && (forall c :: c in s ==> IsDigit(c)) && NumberOf(s) == n && (s[0] == '0' ==> s == "0")
  }

  function Digits(n: nat): (s: string)
    ensures s != [] && forall c :: c in s ==> IsDigit(c)
  {
    var last := [('0' as int + n % 10) as char];
    if n < 10 then last else Digits(n / 10) + last
  }

  lemma {:induction false} DigitsWriteOut(n: nat)
    ensures WritesOut(Digits(n), n)
  {
    if n >= 10 {
      DigitsWriteOut(n / 10);
      var s, t := Digits(n / 10), Digits(n);
      assert t[..|t| - 1] == s && t[0] == s[0];
      NotZero(s, n / 10);
    }
  }

  lemma NotZero(s: string, n: nat)
    requires WritesOut(s, n)
    ensures s[0] == '0' ==> n == 0
  {
    if s[0] == '0' {
      assert s[..|s| - 1] == "";
      assert n == 10 * NumberOf(s[..|s| - 1]) + DigitValue(s[|s| - 1]);
    }
  }

  lemma {:induction false} NumberPositive(s: string)
    requires s != "" && (forall c :: c in s ==> IsDigit(c)) && s[0] != '0'
    ensures NumberOf(s) > 0
  {
    assert s[0] in s;
    if |s| > 1 {
      assert s[..|s| - 1][0] == s[0];
      NumberPositive(s[..|s| - 1]);
    }
  }

  /** The last digit and the text of the rest. */
  lemma LastDigit(s: string, n: nat)
    requires WritesOut(s, n)
    ensures s[|s| - 1] == ('0' as int + n % 10) as char
    ensures |s| > 1 <==> n >= 10
    ensures |s| > 1 ==> WritesOut(s[..|s| - 1], n / 10)
  {
    assert s[|s| - 1] in s;
    var before := s[..|s| - 1];
    if |s| > 1 {
      assert before[0] == s[0] != '0';
      NumberPositive(before);
    } else {
      assert before == "";
    }
    assert n == 10 * NumberOf(before) + DigitValue(s[|s| - 1]);
  }

  /** Only one text writes a number out. */
  lemma {:induction false} WrittenOneWay(s: string, t: string, n: nat)
    requires WritesOut(s, n) && WritesOut(t, n)
    ensures s == t
  {
    LastDigit(s, n);
    LastDigit(t, n);
    var a, b := s[..|s| - 1], t[..|t| - 1];
    assert s == a + [s[|s| - 1]] && t == b + [t[|t| - 1]];
    if n >= 10 {
      WrittenOneWay(a, b, n / 10);
    }
  }

  function Decimal(n: int): (s: string)
    ensures ',' !in s && s != [] && (s[0] == '-' <==> n < 0)
  {
    if n < 0 then "-" + Digits(-n)
    else
      assert Digits(n)[0] in Digits(n);
      Digits(n)
  }

  /** A sign where there is one, and the number written out. */
  lemma DecimalWritesOut(n: int)
    ensures if n < 0 then Decimal(n)[0] == '-' && WritesOut(Decimal(n)[1..], -n) else WritesOut(Decimal(n), n)
  {
    if n < 0 {
      DigitsWriteOut(-n);
      assert Decimal(n)[1..] == Digits(-n);
    } else {
      DigitsWriteOut(n);
    }
  }

  lemma DecimalsDiffer(m: int, n: int)
    requires Decimal(m) == Decimal(n)
    ensures m == n
  {
    DecimalWritesOut(m);
    DecimalWritesOut(n);
  }

  function CommaList(ids: seq<int>): (s: string)
    ensures s == "" || s[0] == ','
  {
    if ids == [] then "" else "," + Decimal(ids[0]) + CommaList(ids[1..])
  }

  lemma SplitAtComma(u: string, v: string, r: string, s: string)
    requires ',' !in u && ',' !in v && u + r == v + s
    requires (r == "" || r[0] == ',') && (s == "" || s[0] == ',')
    ensures u == v && r == s
  {
    var t := u + r;
    assert forall i :: 0 <= i < |u| ==> t[i] == u[i];
    assert forall i :: 0 <= i < |v| ==> t[i] == v[i];
    assert |u| < |t| ==> t[|u|] == ',';
    assert |v| < |t| ==> t[|v|] == ',';
    assert u == t[..|u|] && v == t[..|v|] && r == t[|u|..] && s == t[|v|..];
  }

  lemma {:induction false} ListsDiffer(a: seq<int>, b: seq<int>)
    requires CommaList(a) == CommaList(b)
    ensures a == b
  {
    if a != [] && b != [] {
      var u, v, r, t := Decimal(a[0]), Decimal(b[0]), CommaList(a[1..]), CommaList(b[1..]);
      DropComma(u, r);
      DropComma(v, t);
      SplitAtComma(u, v, r, t);
      DecimalsDiffer(a[0], b[0]);
      ListsDiffer(a[1..], b[1..]);
      assert a == [a[0]] + a[1..] && b == [b[0]] + b[1..];
    }
  }

  lemma DropComma(u: string, r: string)
    ensures ("," + u + r)[1..] == u + r
  {
  }

  // ── Rotations ──────────────────────────────────────────────────────────────

  function Rotate(c: seq<int>, k: nat): (r: seq<int>)
    requires k <= |c|
    ensures |r| == |c|
  {
    c[k..] + c[..k]
  }

  ghost predicate Rotation(c: seq<int>, d: seq<int>) {
    exists k :: 0 <= k < |c| && d == Rotate(c, k)
  }

  lemma RotateTwice(c: seq<int>, j: nat, k: nat)
    requires j < |c| && k < |c|
    ensures Rotate(Rotate(c, j), k) == Rotate(c, if j + k < |c| then j + k else j + k - |c|)
  {
  }

  ghost predicate LeastAt(c: seq<int>, i: int) {
    0 <= i < |c| && forall j :: 0 <= j < |c| ==> c[i] <= c[j]
  }

  function MinIndex(c: seq<int>): (i: nat)
    requires c != []
    ensures LeastAt(c, i) && forall j :: 0 <= j < i ==> c[i] < c[j]
  {
    if |c| == 1 then 0
    else
      var i := MinIndex(c[..|c| - 1]);
      assert forall j :: 0 <= j < |c| - 1 ==> c[j] == c[..|c| - 1][j];
      if c[|c| - 1] < c[i] then |c| - 1 else i
  }

  function Key(c: seq<int>): string {
    if c == [] then "" else CommaList(Rotate(c, MinIndex(c)))
  }

  /** Rotating a simple cycle does not change which rotation starts with its least id. */
  lemma CanonicalRotation(c: seq<int>, k: nat)
    requires NoRepeats(c) && k < |c|
    ensures Rotate(Rotate(c, k), MinIndex(Rotate(c, k))) == Rotate(c, MinIndex(c))
  {
    var j := MinIndex(Rotate(c, k));
    LeastAfterRotation(c, k, MinIndex(c), j);
    RotateTwice(c, k, j);
  }

  /** The least id moves with the rotation. */
  lemma LeastAfterRotation(c: seq<int>, k: nat, i: nat, j: nat)
    requires NoRepeats(c) && k < |c| && LeastAt(c, i) && LeastAt(Rotate(c, k), j)
    ensures i == if k + j < |c| then k + j else k + j - |c|
  {
    var i' := if i >= k then i - k else i - k + |c|;
    RotateAt(c, k, j);
    RotateAt(c, k, i');
    LeastMatches(c, Rotate(c, k), i, j, if k + j < |c| then k + j else k + j - |c|, i');
  }

  lemma LeastMatches(c: seq<int>, d: seq<int>, i: nat, j: nat, n: nat, i': nat)
    requires NoRepeats(c) && LeastAt(c, i) && LeastAt(d, j)
    requires n < |c| && i' < |d| && d[j] == c[n] && d[i'] == c[i]
    ensures n == i
  {
  }

  lemma RotateAt(c: seq<int>, k: nat, j: nat)
    requires k < |c| && j < |c|
    ensures Rotate(c, k)[j] == c[if k + j < |c| then k + j else k + j - |c|]
  {
  }

  /** Two simple cycles have one key exactly when they are the same cycle entered at different nodes. */
  lemma SameKeyIffRotation(c: seq<int>, d: seq<int>)
    requires c != [] && d != [] && NoRepeats(c) && NoRepeats(d)
    ensures Key(c) == Key(d) <==> Rotation(c, d)
  {
    if Key(c) == Key(d) {
      ListsDiffer(Rotate(c, MinIndex(c)), Rotate(d, MinIndex(d)));
      var i, j := MinIndex(c), MinIndex(d);
      var back := if j == 0 then 0 else |d| - j;
      RotateTwice(d, j, back);
      assert Rotate(d, 0) == d;
      assert Rotate(Rotate(c, i), back) == d;
      RotateTwice(c, i, back);
    }
    if Rotation(c, d) {
      var k :| 0 <= k < |c| && d == Rotate(c, k);
      CanonicalRotation(c, k);
    }
  }

  lemma RotationSameNodes(c: seq<int>, d: seq<int>)
    requires Rotation(c, d)
    ensures |c| == |d| && forall x :: x in c <==> x in d
  {
  }

  method CycleKey(cycle: seq<int>) returns (key: string)
    ensures key == Key(cycle)
  {
    if |cycle| == 0 {
      return "";
    }
    var minIdx := 0;
    for i := 1 to |cycle|
      invariant 0 <= minIdx < i
      invariant minIdx == MinIndex(cycle[..i])
    {
      assert cycle[..i + 1][..i] == cycle[..i];
      if cycle[i] < cycle[minIdx] {
        minIdx := i;
      }
    }
    assert cycle[..|cycle|] == cycle;
    var rotated := StartAt(cycle, minIdx);
    key := WriteList(rotated);
  }

  method StartAt(cycle: seq<int>, minIdx: nat) returns (rotated: seq<int>)
    requires minIdx < |cycle|
    ensures rotated == Rotate(cycle, minIdx)
  {
    rotated := [];
    for i := 0 to |cycle|
      invariant |rotated| == i && rotated == Rotate(cycle, minIdx)[..i]
    {
      WrapIndex(minIdx + i, |cycle|);
      RotateAt(cycle, minIdx, i);
      rotated := rotated + [cycle[(minIdx + i) % |cycle|]];
    }
  }

  lemma WrapIndex(i: nat, n: nat)
    requires 0 < n && i < 2 * n
    ensures i % n == if i < n then i else i - n
  {
  }

  method WriteList(rotated: seq<int>) returns (key: string)
    ensures key == CommaList(rotated)
  {
    key := "";
    for i := 0 to |rotated|
      invariant key + CommaList(rotated[i..]) == CommaList(rotated)
    {
      ListedFrom(rotated, i);
      Append(key, "," + Decimal(rotated[i]), CommaList(rotated[i + 1..]));
      key := key + ("," + Decimal(rotated[i]));
    }
  }

  lemma ListedFrom(ids: seq<int>, i: nat)
    requires i < |ids|
    ensures CommaList(ids[i..]) == ("," + Decimal(ids[i])) + CommaList(ids[i + 1..])
  {
  }

  lemma Append(a: string, b: string, c: string)
    ensures (a + b) + c == a + (b + c)
  {
  }
}
