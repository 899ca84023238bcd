/** Median-cut reduction of a colour list to a bounded palette. */
module GifMedianCut {
  import opened Arithmetic
  import opened Collections
  import opened GifPalette

  // ── Boxes ──────────────────────────────────────────────────────────────────

  ghost function Flatten(boxes: seq<seq<Rgb>>): seq<Rgb> {
    if boxes == [] then [] else boxes[0] + Flatten(boxes[1..])
  }

  lemma {:induction false} FlattenConcat(a: seq<seq<Rgb>>, b: seq<seq<Rgb>>)
    ensures Flatten(a + b) == Flatten(a) + Flatten(b)
  {
    if a == [] {
      assert a + b == b;
    } else {
      assert (a + b)[1..] == a[1..] + b;
      FlattenConcat(a[1..], b);
    }
  }

  /** Nonempty boxes that hold the colours, each occurrence once. */
  ghost predicate Partition(boxes: seq<seq<Rgb>>, colors: seq<Rgb>) {
    && (forall b :: b in boxes ==> b != [])
    && multiset(Flatten(boxes)) == multiset(colors)
  }

  /** No channel of the box spans more than range. */
  ghost predicate NoWiderThan(box: seq<Rgb>, axis: nat, range: int) {
    forall c, d :: c in box && d in box ==> Channel(c, axis) - Channel(d, axis) <= range
  }

  /** range is what the box spans along the channel. */
  ghost predicate Spans(box: seq<Rgb>, axis: nat, range: int) {
    && NoWiderThan(box, axis, range)
    && exists c, d :: c in box && d in box && Channel(c, axis) - Channel(d, axis) == range
  }

  /** Box i, channel a comes before box i', channel a' in the scan. */
  ghost predicate Earlier(i: int, a: int, i': int, a': int) {
    0 <= a < 3 && (i < i' || (i == i' && a < a'))
  }

  /** Of everything scanned before box i, channel a: the first that spans the most. */
  ghost predicate BestSoFar(boxes: seq<seq<Rgb>>, best: nat, axis: nat, range: int, i: nat, a: nat) {
    && (i == 0 && a == 0 ==> range == -1)
    && (i > 0 || a > 0 ==> best < |boxes| && Earlier(best, axis, i, a) && range >= 0 && Spans(boxes[best], axis, range))
    && (forall j, b :: 0 <= j < |boxes| && Earlier(j, b, i, a) ==>
          NoWiderThan(boxes[j], b, if Earlier(j, b, best, axis) then range - 1 else range))
  }

  method ChannelRange(box: seq<Rgb>, axis: nat) returns (range: int)
    requires box != [] && axis < 3
    ensures Spans(box, axis, range) && 0 <= range
  {
    var mn: int, mx: int := 255, 0;
    ghost var low, high := box[0], box[0];
    for k := 0 to |box|
      invariant forall i :: 0 <= i < k ==> mn <= Channel(box[i], axis) <= mx
      invariant k > 0 ==> low in box && high in box && mn == Channel(low, axis) && mx == Channel(high, axis)
      invariant k == 0 ==> mn == 255 && mx == 0
    {
      if Channel(box[k], axis) < mn || (k == 0 && Channel(box[k], axis) == 255) {
        low := box[k];
      }
      if Channel(box[k], axis) > mx || (k == 0 && Channel(box[k], axis) == 0) {
        high := box[k];
      }
      if Channel(box[k], axis) < mn {
        mn := Channel(box[k], axis);
      }
      if Channel(box[k], axis) > mx {
        mx := Channel(box[k], axis);
      }
    }
    range := mx - mn;
    assert low in box && high in box && Channel(high, axis) - Channel(low, axis) == range;
  }

  method WidestBox(boxes: seq<seq<Rgb>>) returns (best: nat, axis: nat, range: int)
    requires boxes != [] && forall b :: b in boxes ==> b != []
    ensures BestSoFar(boxes, best, axis, range, |boxes|, 0)
  {
    best, axis, range := 0, 0, -1;
    for i := 0 to |boxes|
      invariant BestSoFar(boxes, best, axis, range, i, 0)
    {
      assert boxes[i] in boxes;
      for a := 0 to 3
        invariant BestSoFar(boxes, best, axis, range, i, a)
      {
        var r := ChannelRange(boxes[i], a);
        ScanOne(boxes, best, axis, range, i, a, r);
        if r > range {
          best, axis, range := i, a, r;
        }
      }
      ScanNext(boxes, best, axis, range, i);
    }
  }

  lemma ScanOne(boxes: seq<seq<Rgb>>, best: nat, axis: nat, range: int, i: nat, a: nat, r: int)
    requires i < |boxes| && a < 3 && BestSoFar(boxes, best, axis, range, i, a)
    requires Spans(boxes[i], a, r) && r >= 0
    ensures if r > range then BestSoFar(boxes, i, a, r, i, a + 1) else BestSoFar(boxes, best, axis, range, i, a + 1)
  {
  }

  lemma ScanNext(boxes: seq<seq<Rgb>>, best: nat, axis: nat, range: int, i: nat)
    requires i < |boxes| && BestSoFar(boxes, best, axis, range, i, 3)
    ensures BestSoFar(boxes, best, axis, range, i + 1, 0)
  {
  }

  /** Splitting the widest box at the median of its widest channel. */
  method CutWidest(boxes: seq<seq<Rgb>>, best: nat, axis: nat) returns (cut: seq<seq<Rgb>>)
    requires best < |boxes| && |boxes[best]| >= 2
    ensures exists lo: seq<Rgb>, hi: seq<Rgb> ::
      && cut == boxes[..best] + [lo, hi] + boxes[best + 1..]
      && multiset(lo) + multiset(hi) == multiset(boxes[best])
      && |hi| <= |lo| <= |hi| + 1 && hi != []
      && forall c, d :: c in lo && d in hi ==> Channel(c, axis) <= Channel(d, axis)
  {
    var box := SortSlice(boxes[best], (a: Rgb, b: Rgb) => Channel(a, axis) < Channel(b, axis));
    var mid := (|box| + 1) / 2;
    var lo, hi := box[..mid], box[mid..];
    assert box == lo + hi;
    cut := boxes[..best] + [lo, hi] + boxes[best + 1..];
    forall c, d | c in lo && d in hi
      ensures Channel(c, axis) <= Channel(d, axis)
    {
      var i :| 0 <= i < |lo| && lo[i] == c;
      var j :| 0 <= j < |hi| && hi[j] == d;
      assert box[i] == c && box[mid + j] == d;
    }
  }

  lemma CutPartition(boxes: seq<seq<Rgb>>, colors: seq<Rgb>, best: nat, lo: seq<Rgb>, hi: seq<Rgb>)
    requires Partition(boxes, colors) && best < |boxes|
    requires lo != [] && hi != [] && multiset(lo) + multiset(hi) == multiset(boxes[best])
    ensures Partition(boxes[..best] + [lo, hi] + boxes[best + 1..], colors)
  {
    var before, after := boxes[..best], boxes[best + 1..];
    assert boxes == before + [boxes[best]] + after;
    FlattenMiddle(before, [boxes[best]], after);
    FlattenMiddle(before, [lo, hi], after);
    FlattenPair(lo, hi);
    FlattenOne(boxes[best]);
    forall b | b in before + [lo, hi] + after
      ensures b != []
    {
      assert b in before || b in after ==> b in boxes;
    }
  }

  lemma FlattenOne(b: seq<Rgb>)
    ensures Flatten([b]) == b
  {
  }

  lemma FlattenPair(lo: seq<Rgb>, hi: seq<Rgb>)
    ensures multiset(Flatten([lo, hi])) == multiset(lo) + multiset(hi)
  {
    assert [lo, hi][1..] == [hi];
    FlattenOne(hi);
  }

  lemma FlattenMiddle(a: seq<seq<Rgb>>, m: seq<seq<Rgb>>, b: seq<seq<Rgb>>)
    ensures multiset(Flatten(a + m + b)) == multiset(Flatten(a)) + multiset(Flatten(m)) + multiset(Flatten(b))
  {
    FlattenConcat(a + m, b);
    FlattenConcat(a, m);
  }

  // ── Averages ───────────────────────────────────────────────────────────────

  function ChannelSum(box: seq<Rgb>, axis: nat): nat {
    if box == [] then 0 else ChannelSum(box[..|box| - 1], axis) + Channel(box[|box| - 1], axis)
  }

  /** Math.round of total / n: the nearest integer, halves up. */
  function Rounded(total: nat, n: nat): nat
    requires n > 0
  {
    (2 * total + n) / (2 * n)
  }

  /** r is a whole number nearest to total / n, the greater of two. */
  ghost predicate NearestWhole(total: nat, n: nat, r: int) {
    2 * (n * r) - 2 * total <= n && 2 * total - 2 * (n * r) < n
  }

  lemma RoundedNearest(total: nat, n: nat)
    requires n > 0
    ensures NearestWhole(total, n, Rounded(total, n))
  {
    var r := Rounded(total, n);
    assert 2 * total + n == 2 * n * r + (2 * total + n) % (2 * n);
    assert 2 * n * r == 2 * (n * r);
  }

  lemma {:induction false} SumWithin(box: seq<Rgb>, axis: nat, mn: nat, mx: nat)
    requires forall c :: c in box ==> mn <= Channel(c, axis) <= mx
    ensures mn * |box| <= ChannelSum(box, axis) <= mx * |box|
  {
    if box != [] {
      SumWithin(box[..|box| - 1], axis, mn, mx);
      OneMore(mn, |box| - 1);
      OneMore(mx, |box| - 1);
    }
  }

  lemma RoundedWithin(total: nat, n: nat, mn: nat, mx: nat)
    requires n > 0 && mn * n <= total <= mx * n
    ensures mn <= Rounded(total, n) <= mx
  {
    QuotientReaches(2 * total + n, 2 * n, mn);
    QuotientReaches(2 * total + n, 2 * n, mx + 1);
  }

  /** The average colour of a box lies between the least and the greatest of every channel. */
  lemma MeanWithin(box: seq<Rgb>, axis: nat, mn: nat, mx: nat)
    requires box != [] && forall c :: c in box ==> mn <= Channel(c, axis) <= mx
    ensures mn <= Rounded(ChannelSum(box, axis), |box|) <= mx
  {
    SumWithin(box, axis, mn, mx);
    RoundedWithin(ChannelSum(box, axis), |box|, mn, mx);
  }

  ghost predicate IsMean(box: seq<Rgb>, c: Rgb) {
    box != [] && forall axis :: 0 <= axis < 3 ==>
      && Channel(c, axis) == Rounded(ChannelSum(box, axis), |box|)
      && NearestWhole(ChannelSum(box, axis), |box|, Channel(c, axis))
  }

  method BoxMean(box: seq<Rgb>) returns (c: Rgb)
    requires box != []
    ensures IsMean(box, c)
  {
    var r: nat, g: nat, b: nat := 0, 0, 0;
    for i := 0 to |box|
      invariant r == ChannelSum(box[..i], 0) && g == ChannelSum(box[..i], 1) && b == ChannelSum(box[..i], 2)
    {
      r, g, b := r + box[i].r, g + box[i].g, b + box[i].b;
      assert box[..i + 1][..i] == box[..i];
    }
    assert box[..|box|] == box;
    var n := |box|;
    MeanWithin(box, 0, 0, 255);
    MeanWithin(box, 1, 0, 255);
    MeanWithin(box, 2, 0, 255);
    RoundedNearest(r, n);
    RoundedNearest(g, n);
    RoundedNearest(b, n);
    c := Rgb(Rounded(r, n), Rounded(g, n), Rounded(b, n));
  }

  // ── The reduction ──────────────────────────────────────────────────────────

  /** palette averages the boxes of a partition of the colours into at most maxColors. */
  ghost predicate Reduction(colors: seq<Rgb>, maxColors: nat, boxes: seq<seq<Rgb>>, palette: seq<Rgb>) {
    && Partition(boxes, colors)
    && 0 < |boxes| == |palette| && (|boxes| <= maxColors || |boxes| == 1)
    && (forall i :: 0 <= i < |boxes| ==> IsMean(boxes[i], palette[i]))
    && (|boxes| < maxColors ==> forall b, axis :: b in boxes && 0 <= axis < 3 ==> NoWiderThan(b, axis, 0))
  }

  /** Short lists are kept; long ones become a full palette of averages when no colour repeats. */
  method MedianCut(colors: seq<Rgb>, maxColors: nat) returns (palette: seq<Rgb>)
    ensures colors == [] ==> palette == [BLACK]
    ensures 0 < |colors| <= maxColors ==> palette == colors
    ensures |colors| > maxColors ==> exists boxes :: Reduction(colors, maxColors, boxes, palette)
    ensures |colors| > maxColors > 0 && NoRepeats(colors) ==> |palette| == maxColors
  {
    if |colors| == 0 {
      return [BLACK];
    }
    if |colors| <= maxColors {
      return colors;
    }
    var boxes := [colors];
    assert Flatten(boxes) == colors + [] == colors;
    var done := false;
    while |boxes| < maxColors && !done
      invariant Partition(boxes, colors) && 0 < |boxes|
      invariant |boxes| <= maxColors || |boxes| == 1
      invariant done ==> forall b, axis :: b in boxes && 0 <= axis < 3 ==> NoWiderThan(b, axis, 0)
      decreases !done, maxColors - |boxes|
    {
      var best, axis, range := WidestBox(boxes);
      if range == 0 {
        Flat(boxes, best, axis);
        done := true;
      } else {
        SpreadHasTwo(boxes[best], axis, range);
        var cut := CutWidest(boxes, best, axis);
        ghost var lo: seq<Rgb>, hi: seq<Rgb> :| cut == boxes[..best] + [lo, hi] + boxes[best + 1..]
          && multiset(lo) + multiset(hi) == multiset(boxes[best]) && |hi| <= |lo| && hi != [];
        CutPartition(boxes, colors, best, lo, hi);
        boxes := cut;
      }
    }
    palette := [];
    for i := 0 to |boxes|
      invariant |palette| == i && forall j :: 0 <= j < i ==> IsMean(boxes[j], palette[j])
    {
      assert boxes[i] in boxes;
      var c := BoxMean(boxes[i]);
      palette := palette + [c];
    }
    assert Reduction(colors, maxColors, boxes, palette);
    if NoRepeats(colors) && done && |boxes| < maxColors {
      FlatBoxesAreFew(boxes, colors);
    }
  }

  lemma Flat(boxes: seq<seq<Rgb>>, best: nat, axis: nat)
    requires boxes != [] && BestSoFar(boxes, best, axis, 0, |boxes|, 0)
    ensures forall b, a :: b in boxes && 0 <= a < 3 ==> NoWiderThan(b, a, 0)
  {
    forall b, a | b in boxes && 0 <= a < 3
      ensures NoWiderThan(b, a, 0)
    {
      var j :| 0 <= j < |boxes| && boxes[j] == b;
      assert Earlier(j, a, |boxes|, 0);
    }
  }

  lemma SpreadHasTwo(box: seq<Rgb>, axis: nat, range: int)
    requires Spans(box, axis, range) && range > 0
    ensures |box| >= 2
  {
  }

  /** Boxes of one colour each, without repeats, are as many as the colours. */
  lemma FlatBoxesAreFew(boxes: seq<seq<Rgb>>, colors: seq<Rgb>)
    requires Partition(boxes, colors) && NoRepeats(colors)
    requires forall b, axis :: b in boxes && 0 <= axis < 3 ==> NoWiderThan(b, axis, 0)
    ensures |boxes| == |colors|
  {
    forall b | b in boxes
      ensures |b| == 1
    {
      if |b| >= 2 {
        assert NoWiderThan(b, 0, 0) && NoWiderThan(b, 1, 0) && NoWiderThan(b, 2, 0);
        assert Channel(b[0], 0) == Channel(b[1], 0) && Channel(b[0], 1) == Channel(b[1], 1)
            && Channel(b[0], 2) == Channel(b[1], 2);
        assert b[0] == b[1];
        TwiceInBox(boxes, b);
        TwiceRepeats(colors, b[0]);
      }
    }
    SingletonsFlatten(boxes);
    assert |multiset(Flatten(boxes))| == |multiset(colors)|;
  }

  lemma {:induction false} SingletonsFlatten(boxes: seq<seq<Rgb>>)
    requires forall b :: b in boxes ==> |b| == 1
    ensures |Flatten(boxes)| == |boxes|
  {
    if boxes != [] {
      SingletonsFlatten(boxes[1..]);
    }
  }

  lemma {:induction false} TwiceInBox(boxes: seq<seq<Rgb>>, b: seq<Rgb>)
    requires b in boxes && |b| >= 2 && b[0] == b[1]
    ensures multiset(Flatten(boxes))[b[0]] >= 2
  {
    if boxes[0] == b {
      assert b == [b[0], b[1]] + b[2..];
    } else {
      TwiceInBox(boxes[1..], b);
    }
  }

  lemma TwiceRepeats(s: seq<Rgb>, c: Rgb)
    requires multiset(s)[c] >= 2
    ensures !NoRepeats(s)
  {
    var i :| 0 <= i < |s| && s[i] == c;
    assert s == s[..i] + [c] + s[i + 1..];
    if c in s[..i] {
      var j :| 0 <= j < i && s[j] == c;
    } else {
      assert c in multiset(s[i + 1..]);
      assert c in s[i + 1..];
      var j :| i < j < |s| && s[j] == c;
    }
  }
}
