/** Per-resource contention metrics and the time by resource matrix of concurrent waiters. */
module Heatmap {
  import opened Arithmetic
  import opened Collections
  import opened Contention
  import opened Model

  // ── Grouping segments by resource ──────────────────────────────────────────

  /** The heatmap drops segments that do not end after they start; the metrics keep them. */
  predicate Kept(s: Segment, properOnly: bool) {
    s.resource != "" && (properOnly ==> s.start < s.end)
  }

  function GroupOf(segments: seq<Segment>, properOnly: bool, resource: string): (g: seq<Bounds>)
    ensures properOnly ==> Proper(g)
  {
    if segments == [] then []
    else
      var s := segments[|segments| - 1];
      GroupOf(segments[..|segments| - 1], properOnly, resource)
      + (if Kept(s, properOnly) && s.resource == resource then [Bounds(s.start, s.end)] else [])
  }

  /** The segment is on the resource, has these bounds and, if asked, ends after it starts. */
  ghost function OnResource(r: string, properOnly: bool, b: Bounds): Segment -> int {
    (s: Segment) =>
      if s.resource == r && r != "" && (!properOnly || s.end > s.start) && s.start == b.start && s.end == b.end
      then 1 else 0
  }

  /** A resource's group holds the bounds of its segments, as often as they occur. */
  lemma {:induction false} GroupCounts(segments: seq<Segment>, properOnly: bool, r: string, b: Bounds)
    ensures multiset(GroupOf(segments, properOnly, r))[b] == Total(OnResource(r, properOnly, b), segments)
  {
    if segments != [] {
      GroupCounts(segments[..|segments| - 1], properOnly, r, b);
    }
  }

  ghost predicate Groups(byResource: map<string, seq<Bounds>>, segments: seq<Segment>, properOnly: bool) {
    forall r :: (if r in byResource then byResource[r] else []) == GroupOf(segments, properOnly, r)
             && (r in byResource ==> byResource[r] != [])
  }

  method GroupByResource(segments: seq<Segment>, properOnly: bool) returns (byResource: map<string, seq<Bounds>>)
    ensures Groups(byResource, segments, properOnly)
  {
    byResource := map[];
    for i := 0 to |segments|
      invariant Groups(byResource, segments[..i], properOnly)
    {
      assert segments[..i + 1][..i] == segments[..i];
      var s := segments[i];
      if Kept(s, properOnly) {
        byResource := byResource[s.resource := (if s.resource in byResource then byResource[s.resource] else [])
                                               + [Bounds(s.start, s.end)]];
      }
    }
    assert segments[..|segments|] == segments;
  }

  // ── ComputeResourceContention ──────────────────────────────────────────────

  datatype ResourceContention = ResourceContention(resource: string, peak: int, count: nat, total: int, average: real)

  function Length(): Bounds -> int {
    (s: Bounds) => s.end - s.start
  }

  /** What the metrics of one resource mean. */
  ghost predicate Measures(c: ResourceContention, segs: seq<Bounds>) {
    && segs != [] && IsPeak(segs, c.peak) && c.count == |segs| && c.total == Total(Length(), segs)
    && c.average == c.total as real / c.count as real
  }

  /** One entry for every resource with a segment, in any order. */
  ghost predicate MeasuresAll(out: seq<ResourceContention>, segments: seq<Segment>) {
    && (forall c :: c in out ==> Measures(c, GroupOf(segments, false, c.resource)))
    && (forall i, j :: 0 <= i < j < |out| ==> out[i].resource != out[j].resource)
    && (forall r :: GroupOf(segments, false, r) != [] ==> HasEntry(out, r))
  }

  /** The entries written once the resources in done are done. */
  ghost predicate Entries(out: seq<ResourceContention>, byResource: map<string, seq<Bounds>>, done: set<string>) {
    && (forall c :: c in out ==> c.resource in done && c.resource in byResource && Measures(c, byResource[c.resource]))
    && (forall i, j :: 0 <= i < j < |out| ==> out[i].resource != out[j].resource)
    && (forall r :: r in done ==> HasEntry(out, r))
  }

  ghost predicate HasEntry(out: seq<ResourceContention>, r: string) {
    exists c :: c in out && c.resource == r
  }

  lemma AddEntry(out: seq<ResourceContention>, byResource: map<string, seq<Bounds>>, done: set<string>,
                 c: ResourceContention)
    requires Entries(out, byResource, done) && c.resource !in done && c.resource in byResource
    requires Measures(c, byResource[c.resource])
    ensures Entries(out + [c], byResource, done + {c.resource})
  {
    EntryAdded(out, c);
  }

  lemma EntryAdded(out: seq<ResourceContention>, c: ResourceContention)
    ensures HasEntry(out + [c], c.resource)
    ensures forall r :: HasEntry(out, r) ==> HasEntry(out + [c], r)
    ensures forall d :: d in out + [c] <==> d in out || d == c
  {
    assert c in out + [c] && forall d :: d in out ==> d in out + [c];
  }

  lemma AllEntries(out: seq<ResourceContention>, byResource: map<string, seq<Bounds>>, segments: seq<Segment>)
    requires Entries(out, byResource, byResource.Keys) && Groups(byResource, segments, false)
    ensures MeasuresAll(out, segments)
  {
  }

  method ComputeResourceContention(segments: seq<Segment>) returns (out: seq<ResourceContention>)
    ensures MeasuresAll(out, segments)
  {
    var byResource := GroupByResource(segments, false);
    assert forall r :: r in byResource ==> byResource[r] != [];
    out := MeasureEach(byResource);
    AllEntries(out, byResource, segments);
  }

  method MeasureEach(byResource: map<string, seq<Bounds>>) returns (out: seq<ResourceContention>)
    requires forall r :: r in byResource ==> byResource[r] != []
    ensures Entries(out, byResource, byResource.Keys)
  {
    out := [];
    var left := byResource.Keys;
    while left != {}
      invariant left <= byResource.Keys && Entries(out, byResource, byResource.Keys - left)
      decreases left
    {
      var r := Pick(left);
      var c := Measure(r, byResource[r]);
      AddEntry(out, byResource, byResource.Keys - left, c);
      assert byResource.Keys - (left - {r}) == (byResource.Keys - left) + {r};
      left := left - {r};
      out := out + [c];
    }
    assert byResource.Keys - {} == byResource.Keys;
  }

  method Measure(resource: string, segs: seq<Bounds>) returns (c: ResourceContention)
    requires segs != []
    ensures c.resource == resource && Measures(c, segs)
  {
    var peak := PeakConcurrent(segs);
    var total := 0;
    for i := 0 to |segs|
      invariant total == Total(Length(), segs[..i])
    {
      assert segs[..i + 1][..i] == segs[..i];
      total := total + (segs[i].end - segs[i].start);
    }
    assert segs[..|segs|] == segs;
    c := ResourceContention(resource, peak, |segs|, total, total as real / |segs| as real);
  }

  // ── One heatmap row ────────────────────────────────────────────────────────

  /** Segments under way at some instant of the half-open bin. */
  function InBin(lo: int, hi: int): Bounds -> int {
    (s: Bounds) => if s.start < hi && lo < s.end then 1 else 0
  }

  ghost function BinCount(segs: seq<Bounds>, minNS: int, resolution: int, b: int): int {
    Total(InBin(minNS + b * resolution, minNS + (b + 1) * resolution), segs)
  }

  function PrefixSum(s: seq<int>): int {
    if s == [] then 0 else PrefixSum(s[..|s| - 1]) + s[|s| - 1]
  }

  lemma {:induction false} SumUpdate(s: seq<int>, k: nat, v: int, n: nat)
    requires k < |s| && n <= |s|
    ensures PrefixSum(s[k := v][..n]) == PrefixSum(s[..n]) + (if k < n then v - s[k] else 0)
  {
    if n > 0 {
      SumUpdate(s, k, v, n - 1);
      assert s[..n][..n - 1] == s[..n - 1] && s[k := v][..n][..n - 1] == s[k := v][..n - 1];
    }
  }

  /** The bins from bStart to bEnd are those the segment overlaps. */
  lemma BinsOfSegment(s: Bounds, minNS: int, resolution: nat, b: int)
    requires resolution > 0
    ensures (s.start - minNS) / resolution <= b <= (s.end - 1 - minNS) / resolution
       <==> s.start < minNS + (b + 1) * resolution && minNS + b * resolution < s.end
  {
    QuotientReaches(s.start - minNS, resolution, b + 1);
    QuotientReaches(s.end - 1 - minNS, resolution, b);
  }

  /** No segment within the range falls outside the bins: the clamps never change anything. */
  lemma ClampsNeverFire(s: Bounds, minNS: int, maxNS: int, resolution: nat)
    requires resolution > 0 && minNS <= s.start < s.end <= maxNS
    ensures 0 <= (s.start - minNS) / resolution <= (s.end - 1 - minNS) / resolution < (maxNS - minNS) / resolution + 1
  {
    QuotientReaches(s.start - minNS, resolution, 0);
    var first := (s.start - minNS) / resolution;
    QuotientReaches(s.start - minNS, resolution, first);
    QuotientReaches(s.end - 1 - minNS, resolution, first);
    var last := (s.end - 1 - minNS) / resolution;
    QuotientReaches(s.end - 1 - minNS, resolution, last);
    QuotientReaches(maxNS - minNS, resolution, last);
  }

  ghost predicate InRange(segs: seq<Bounds>, minNS: int, maxNS: int) {
    forall s :: s in segs ==> minNS <= s.start < s.end <= maxNS
  }

  /** The differences written so far, added up bin by bin, count the segments so far. */
  ghost predicate DeltasOf(delta: seq<int>, segs: seq<Bounds>, minNS: int, resolution: int, numBins: nat) {
    && |delta| == numBins + 1
    && forall b :: 0 <= b < numBins ==> PrefixSum(delta[..b + 1]) == BinCount(segs, minNS, resolution, b)
  }

  lemma DeltaStep(delta: seq<int>, segs: seq<Bounds>, s: Bounds, minNS: int, resolution: nat, numBins: nat,
                  bStart: nat, bEnd: nat)
    requires resolution > 0 && DeltasOf(delta, segs, minNS, resolution, numBins) && bStart <= bEnd < numBins
    requires bStart == (s.start - minNS) / resolution && bEnd == (s.end - 1 - minNS) / resolution
    ensures var d := delta[bStart := delta[bStart] + 1];
      DeltasOf(d[bEnd + 1 := d[bEnd + 1] - 1], segs + [s], minNS, resolution, numBins)
  {
    var d := delta[bStart := delta[bStart] + 1];
    var d' := d[bEnd + 1 := d[bEnd + 1] - 1];
    forall b: nat | b < numBins
      ensures PrefixSum(d'[..b + 1]) == BinCount(segs + [s], minNS, resolution, b)
    {
      SumUpdate(delta, bStart, delta[bStart] + 1, b + 1);
      SumUpdate(d, bEnd + 1, d[bEnd + 1] - 1, b + 1);
      OneMoreInBin(segs, s, minNS, resolution, b);
    }
  }

  lemma OneMoreInBin(segs: seq<Bounds>, s: Bounds, minNS: int, resolution: nat, b: int)
    requires resolution > 0
    ensures BinCount(segs + [s], minNS, resolution, b) == BinCount(segs, minNS, resolution, b)
      + (if (s.start - minNS) / resolution <= b <= (s.end - 1 - minNS) / resolution then 1 else 0)
  {
    BinsOfSegment(s, minNS, resolution, b);
    TotalSnoc(InBin(minNS + b * resolution, minNS + (b + 1) * resolution), segs, s);
  }

  /** Every entry is the number of segments overlapping its bin. */
  method Row(segs: seq<Bounds>, minNS: int, maxNS: int, resolution: int, numBins: nat) returns (counts: seq<int>)
    requires resolution > 0 && InRange(segs, minNS, maxNS) && numBins == (maxNS - minNS) / resolution + 1
    ensures |counts| == numBins
    ensures forall b :: 0 <= b < numBins ==> counts[b] == BinCount(segs, minNS, resolution, b)
  {
    var delta := new int[numBins + 1](_ => 0);
    ZeroDeltas(delta[..], minNS, resolution, numBins);
    for i := 0 to |segs|
      invariant DeltasOf(delta[..], segs[..i], minNS, resolution, numBins)
    {
      var seg := segs[i];
      var bStart := (seg.start - minNS) / resolution;
      var bEnd := (seg.end - 1 - minNS) / resolution;
      ClampsNeverFire(seg, minNS, maxNS, resolution);
      if bStart < 0 {
        bStart := 0;
      }
      if bEnd >= numBins {
        bEnd := numBins - 1;
      }
      DeltaStep(delta[..], segs[..i], seg, minNS, resolution, numBins, bStart, bEnd);
      ghost var before := delta[..];
      delta[bStart] := delta[bStart] + 1;
      if bEnd + 1 <= numBins {
        delta[bEnd + 1] := delta[bEnd + 1] - 1;
      }
      assert segs[..i + 1] == segs[..i] + [seg];
      ghost var d := before[bStart := before[bStart] + 1];
      assert delta[..] == d[bEnd + 1 := d[bEnd + 1] - 1];
    }
    assert segs[..|segs|] == segs;
    counts := RunningSums(delta, numBins, segs, minNS, resolution);
  }

  method RunningSums(delta: array<int>, numBins: nat, ghost segs: seq<Bounds>, ghost minNS: int, ghost resolution: nat)
    returns (counts: seq<int>)
    requires DeltasOf(delta[..], segs, minNS, resolution, numBins)
    ensures |counts| == numBins
    ensures forall b :: 0 <= b < numBins ==> counts[b] == BinCount(segs, minNS, resolution, b)
  {
    counts := [];
    var running := 0;
    for i := 0 to numBins
      invariant |counts| == i && running == PrefixSum(delta[..i])
      invariant forall b :: 0 <= b < i ==> counts[b] == BinCount(segs, minNS, resolution, b)
    {
      assert delta[..i + 1][..i] == delta[..i];
      assert delta[..][..i + 1] == delta[..i + 1];
      running := running + delta[i];
      counts := counts + [running];
    }
  }

  lemma ZeroDeltas(delta: seq<int>, minNS: int, resolution: int, numBins: nat)
    requires |delta| == numBins + 1 && forall k :: 0 <= k < |delta| ==> delta[k] == 0
    ensures DeltasOf(delta, [], minNS, resolution, numBins)
  {
    forall b: nat | b < numBins
      ensures PrefixSum(delta[..b + 1]) == BinCount([], minNS, resolution, b)
    {
      SumZero(delta[..b + 1]);
    }
  }

  lemma {:induction false} SumZero(s: seq<int>)
    requires forall k :: 0 <= k < |s| ==> s[k] == 0
    ensures PrefixSum(s) == 0
  {
    if s != [] {
      SumZero(s[..|s| - 1]);
    }
  }

  // ── The whole matrix ───────────────────────────────────────────────────────

  datatype HeatmapRow = HeatmapRow(resource: string, counts: seq<int>)

  datatype Matrix = Matrix(bins: seq<int>, rows: seq<HeatmapRow>)

  datatype Entry = Entry(resource: string, segs: seq<Bounds>)

  /** Most segments first, then by name. */
  predicate Busier(a: Entry, b: Entry) {
    if |a.segs| != |b.segs| then |a.segs| > |b.segs| else StringLess(a.resource, b.resource)
  }

  lemma BusierOrders()
    ensures Orders(Busier)
  {
    forall a, b, c
      ensures Busier(a, b) ==> !Busier(b, a)
      ensures !Busier(a, b) && !Busier(b, c) ==> !Busier(a, c)
    {
      StringAsymmetric(a.resource, b.resource);
      if !StringLess(a.resource, b.resource) && !StringLess(b.resource, c.resource) {
        StringTransitive(a.resource, b.resource, c.resource);
      }
    }
  }

  /** Waits for a resource and ends after it starts. */
  predicate Extends(s: Segment) {
    s.resource != "" && s.end > s.start
  }

  /** The earliest start and the latest end of such segments. */
  ghost predicate IsSpan(segments: seq<Segment>, minNS: int, maxNS: int) {
    && (forall s :: s in segments && Extends(s) ==> minNS <= s.start && s.end <= maxNS)
    && (exists s :: s in segments && Extends(s) && s.start == minNS)
    && (exists s :: s in segments && Extends(s) && s.end == maxNS)
  }

  method Span(segments: seq<Segment>) returns (minNS: int, maxNS: int, any: bool)
    ensures any <==> exists s :: s in segments && Extends(s)
    ensures any ==> IsSpan(segments, minNS, maxNS)
  {
    minNS, maxNS, any := 0, 0, false;
    for i := 0 to |segments|
      invariant any <==> exists s :: s in segments[..i] && Extends(s)
      invariant any ==> IsSpan(segments[..i], minNS, maxNS)
    {
      var s := segments[i];
      assert segments[..i + 1] == segments[..i] + [s];
      assert forall x :: x in segments[..i + 1] <==> x in segments[..i] || x == s;
      if Extends(s) {
        if !any || s.start < minNS {
          minNS := s.start;
        }
        if !any || s.end > maxNS {
          maxNS := s.end;
        }
        any := true;
      }
    }
    assert segments[..|segments|] == segments;
  }

  lemma {:induction false} GroupFrom(segments: seq<Segment>, resource: string)
    ensures forall b :: b in GroupOf(segments, true, resource) ==>
      exists s :: s in segments && Kept(s, true) && s.start == b.start && s.end == b.end
    ensures (exists s :: s in segments && Kept(s, true) && s.resource == resource) ==>
      GroupOf(segments, true, resource) != []
  {
    if segments != [] {
      var rest, last := segments[..|segments| - 1], segments[|segments| - 1];
      GroupFrom(rest, resource);
      assert segments == rest + [last];
      assert forall s :: s in segments <==> s in rest || s == last;
    }
  }

  /** The matrix is over the whole span, and each row counts its resource's segments bin by bin. */
  ghost predicate MatrixOf(m: Matrix, segments: seq<Segment>, resolution: int, minNS: int, maxNS: int)
    requires resolution > 0
  {
    && IsSpan(segments, minNS, maxNS)
    && |m.bins| == (maxNS - minNS) / resolution + 1
    && (forall b :: 0 <= b < |m.bins| ==> m.bins[b] == minNS + b * resolution)
    && (forall row :: row in m.rows ==>
          GroupOf(segments, true, row.resource) != [] && RowOf(row, segments, resolution, minNS, |m.bins|))
    && (forall i, j :: 0 <= i < j < |m.rows| ==> m.rows[i].resource != m.rows[j].resource)
  }

  ghost predicate RowOf(row: HeatmapRow, segments: seq<Segment>, resolution: int, minNS: int, numBins: int) {
    && |row.counts| == numBins
    && forall b :: 0 <= b < numBins ==>
         row.counts[b] == BinCount(GroupOf(segments, true, row.resource), minNS, resolution, b)
  }

  ghost function EntryOf(segments: seq<Segment>, r: string): Entry {
    Entry(r, GroupOf(segments, true, r))
  }

  /** Resources with more segments first, those with as many by name. */
  ghost predicate BusiestFirst(m: Matrix, segments: seq<Segment>) {
    forall i, j :: 0 <= i < j < |m.rows| ==> NoLessBusy(segments, m.rows[i].resource, m.rows[j].resource)
  }

  ghost predicate NoLessBusy(segments: seq<Segment>, a: string, b: string) {
    || |GroupOf(segments, true, a)| > |GroupOf(segments, true, b)|
    || (|GroupOf(segments, true, a)| == |GroupOf(segments, true, b)| && !StringLess(b, a))
  }

  /** With a limit the rows kept are the busiest: no resource without a row comes before one with a row. */
  ghost predicate KeepsBusiest(m: Matrix, segments: seq<Segment>, limit: int) {
    && (limit > 0 ==> |m.rows| <= limit)
    && forall r :: GroupOf(segments, true, r) != [] && (forall row :: row in m.rows ==> row.resource != r) ==>
         limit > 0 && |m.rows| == limit
         && forall row :: row in m.rows ==> !Busier(EntryOf(segments, r), EntryOf(segments, row.resource))
  }

  function ResourceName(): Entry -> string {
    (e: Entry) => e.resource
  }

  /** One entry per resource of the map. */
  ghost predicate EntriesOf(entries: seq<Entry>, byResource: map<string, seq<Bounds>>, done: set<string>) {
    && (forall e :: e in entries ==> e.resource in done && e.resource in byResource && e.segs == byResource[e.resource])
    && DistinctBy(ResourceName(), entries)
    && (forall r :: r in done ==> exists e :: e in entries && e.resource == r)
  }

  lemma AddResource(entries: seq<Entry>, byResource: map<string, seq<Bounds>>, done: set<string>, r: string)
    requires EntriesOf(entries, byResource, done) && r in byResource && r !in done
    ensures EntriesOf(entries + [Entry(r, byResource[r])], byResource, done + {r})
  {
  }

  method ListResources(byResource: map<string, seq<Bounds>>) returns (entries: seq<Entry>)
    ensures EntriesOf(entries, byResource, byResource.Keys)
  {
    entries := [];
    var left := byResource.Keys;
    while left != {}
      invariant left <= byResource.Keys && EntriesOf(entries, byResource, byResource.Keys - left)
      decreases left
    {
      var r := Pick(left);
      AddResource(entries, byResource, byResource.Keys - left, r);
      assert byResource.Keys - (left - {r}) == (byResource.Keys - left) + {r};
      left := left - {r};
      entries := entries + [Entry(r, byResource[r])];
    }
    assert byResource.Keys - {} == byResource.Keys;
  }

  lemma SortedEntries(entries: seq<Entry>, sorted: seq<Entry>, byResource: map<string, seq<Bounds>>)
    requires EntriesOf(entries, byResource, byResource.Keys) && multiset(entries) == multiset(sorted)
    ensures EntriesOf(sorted, byResource, byResource.Keys)
  {
    DistinctPermutes(ResourceName(), entries, sorted);
    forall e
      ensures e in entries <==> e in sorted
    {
      assert e in multiset(entries) <==> e in multiset(sorted);
    }
  }

  ghost predicate RowFor(row: HeatmapRow, e: Entry, minNS: int, resolution: int, numBins: int) {
    && row.resource == e.resource && |row.counts| == numBins
    && forall b :: 0 <= b < numBins ==> row.counts[b] == BinCount(e.segs, minNS, resolution, b)
  }

  /** Rows for the first entries of the list. */
  method Rows(resources: seq<Entry>, minNS: int, maxNS: int, resolution: int, numBins: nat)
    returns (rows: seq<HeatmapRow>)
    requires resolution > 0 && numBins == (maxNS - minNS) / resolution + 1
    requires forall e :: e in resources ==> InRange(e.segs, minNS, maxNS)
    ensures |rows| == |resources|
    ensures forall k :: 0 <= k < |rows| ==> RowFor(rows[k], resources[k], minNS, resolution, numBins)
  {
    rows := [];
    for i := 0 to |resources|
      invariant |rows| == i && forall k :: 0 <= k < i ==> RowFor(rows[k], resources[k], minNS, resolution, numBins)
    {
      assert resources[i] in resources;
      var counts := Row(resources[i].segs, minNS, maxNS, resolution, numBins);
      rows := rows + [HeatmapRow(resources[i].resource, counts)];
    }
  }

  method ContentionHeatmap(segments: seq<Segment>, resolution: int, limit: int) returns (m: Matrix)
    ensures resolution <= 0 || (forall s :: s in segments ==> !Extends(s)) ==> m == Matrix([], [])
    ensures resolution > 0 && (exists s :: s in segments && Extends(s)) ==>
      && KeepsBusiest(m, segments, limit) && BusiestFirst(m, segments)
      && exists minNS, maxNS :: MatrixOf(m, segments, resolution, minNS, maxNS)
  {
    if resolution <= 0 {
      return Matrix([], []);
    }
    var byResource := GroupByResource(segments, true);
    var minNS, maxNS, any := Span(segments);
    if !any {
      return Matrix([], []);
    }
    SpanOrdered(segments, minNS, maxNS);
    QuotientReaches(maxNS - minNS, resolution, 0);
    var numBins := (maxNS - minNS) / resolution + 1;
    var bins := seq(numBins, i requires 0 <= i < numBins => minNS + i * resolution);
    var entries := ListResources(byResource);
    BusierOrders();
    var sorted := SortSlice(entries, Busier);
    SortedEntries(entries, sorted, byResource);
    var resources := if limit > 0 && |sorted| > limit then sorted[..limit] else sorted;
    EntriesInRange(segments, byResource, sorted, minNS, maxNS);
    var rows := Rows(resources, minNS, maxNS, resolution, numBins);
    m := Matrix(bins, rows);
    MatrixComplete(segments, byResource, sorted, m, resolution, limit, minNS, maxNS);
    RowsInOrder(segments, byResource, sorted, m, resolution, minNS);
  }

  lemma SpanOrdered(segments: seq<Segment>, minNS: int, maxNS: int)
    requires IsSpan(segments, minNS, maxNS)
    ensures minNS < maxNS
  {
  }

  lemma EntriesInRange(segments: seq<Segment>, byResource: map<string, seq<Bounds>>, entries: seq<Entry>, minNS: int,
                       maxNS: int)
    requires Groups(byResource, segments, true) && IsSpan(segments, minNS, maxNS)
    requires EntriesOf(entries, byResource, byResource.Keys)
    ensures forall e :: e in entries ==> InRange(e.segs, minNS, maxNS)
  {
    forall e, b | e in entries && b in e.segs
      ensures minNS <= b.start < b.end <= maxNS
    {
      assert e.segs == GroupOf(segments, true, e.resource);
      GroupFrom(segments, e.resource);
    }
  }

  /** The entries are the groups. */
  lemma EntryGroups(segments: seq<Segment>, byResource: map<string, seq<Bounds>>, sorted: seq<Entry>, k: nat)
    requires Groups(byResource, segments, true) && EntriesOf(sorted, byResource, byResource.Keys) && k < |sorted|
    ensures sorted[k].segs == GroupOf(segments, true, sorted[k].resource) != []
  {
  }

  lemma MatrixComplete(segments: seq<Segment>, byResource: map<string, seq<Bounds>>, sorted: seq<Entry>,
                       m: Matrix, resolution: int, limit: int, minNS: int, maxNS: int)
    requires resolution > 0 && Groups(byResource, segments, true) && IsSpan(segments, minNS, maxNS)
    requires EntriesOf(sorted, byResource, byResource.Keys) && Sorted(sorted, Busier)
    requires |m.rows| == if limit > 0 && |sorted| > limit then limit else |sorted|
    requires |m.bins| == (maxNS - minNS) / resolution + 1
    requires forall b :: 0 <= b < |m.bins| ==> m.bins[b] == minNS + b * resolution
    requires forall k :: 0 <= k < |m.rows| ==> RowFor(m.rows[k], sorted[k], minNS, resolution, |m.bins|)
    ensures MatrixOf(m, segments, resolution, minNS, maxNS) && KeepsBusiest(m, segments, limit)
  {
    forall row | row in m.rows
      ensures GroupOf(segments, true, row.resource) != [] && RowOf(row, segments, resolution, minNS, |m.bins|)
    {
      var k :| 0 <= k < |m.rows| && m.rows[k] == row;
      EntryGroups(segments, byResource, sorted, k);
    }
    forall i, j | 0 <= i < j < |m.rows|
      ensures m.rows[i].resource != m.rows[j].resource
    {
      assert ResourceName()(sorted[i]) != ResourceName()(sorted[j]);
    }
    forall r | GroupOf(segments, true, r) != [] && forall row :: row in m.rows ==> row.resource != r
      ensures limit > 0 && |m.rows| == limit
      ensures forall row :: row in m.rows ==>
        !Busier(EntryOf(segments, r), EntryOf(segments, row.resource))
    {
      OmittedIsLast(segments, byResource, sorted, m.rows, r, minNS, resolution, |m.bins|);
    }
  }

  lemma RowsInOrder(segments: seq<Segment>, byResource: map<string, seq<Bounds>>, sorted: seq<Entry>,
                    m: Matrix, resolution: int, minNS: int)
    requires Groups(byResource, segments, true)
    requires EntriesOf(sorted, byResource, byResource.Keys) && Sorted(sorted, Busier) && |m.rows| <= |sorted|
    requires forall k :: 0 <= k < |m.rows| ==> RowFor(m.rows[k], sorted[k], minNS, resolution, |m.bins|)
    ensures BusiestFirst(m, segments)
  {
    forall i, j | 0 <= i < j < |m.rows|
      ensures NoLessBusy(segments, m.rows[i].resource, m.rows[j].resource)
    {
      EntryGroups(segments, byResource, sorted, i);
      EntryGroups(segments, byResource, sorted, j);
      assert !Busier(sorted[j], sorted[i]);
    }
  }

  lemma OmittedIsLast(segments: seq<Segment>, byResource: map<string, seq<Bounds>>, sorted: seq<Entry>,
                      rows: seq<HeatmapRow>, r: string, minNS: int, resolution: int, numBins: int)
    requires Groups(byResource, segments, true)
    requires EntriesOf(sorted, byResource, byResource.Keys) && Sorted(sorted, Busier)
    requires |rows| <= |sorted|
    requires forall k :: 0 <= k < |rows| ==> RowFor(rows[k], sorted[k], minNS, resolution, numBins)
    requires GroupOf(segments, true, r) != [] && forall row :: row in rows ==> row.resource != r
    ensures |rows| < |sorted|
    ensures forall row :: row in rows ==>
      !Busier(EntryOf(segments, r), EntryOf(segments, row.resource))
  {
    assert r in byResource;
    var e :| e in sorted && e.resource == r;
    var j :| 0 <= j < |sorted| && sorted[j] == e;
    assert forall k :: 0 <= k < |rows| ==> rows[k] in rows;
    EntryGroups(segments, byResource, sorted, j);
    forall row | row in rows
      ensures !Busier(EntryOf(segments, r), EntryOf(segments, row.resource))
    {
      var i :| 0 <= i < |rows| && rows[i] == row;
      EntryGroups(segments, byResource, sorted, i);
      assert i < j;
    }
  }

  // ── The two views agree ────────────────────────────────────────────────────

  lemma {:induction false} TotalMonotone(f: Bounds -> int, g: Bounds -> int, segs: seq<Bounds>)
    requires forall s :: f(s) <= g(s)
    ensures Total(f, segs) <= Total(g, segs)
  {
    if segs != [] {
      TotalMonotone(f, g, segs[..|segs| - 1]);
    }
  }

  lemma {:induction false} SomeActive(segs: seq<Bounds>, t: int)
    requires Concurrent(segs, t) > 0
    ensures exists s :: s in segs && s.start <= t < s.end
  {
    var rest, s := segs[..|segs| - 1], segs[|segs| - 1];
    if s.start <= t < s.end {
      assert s in segs;
    } else {
      SomeActive(rest, t);
      var r :| r in rest && r.start <= t < r.end;
      assert r in segs;
    }
  }

  /** Some bin of the row counts at least the peak of the sweep line. */
  lemma PeakWithinRow(segs: seq<Bounds>, peak: int, minNS: int, maxNS: int, resolution: nat, counts: seq<int>)
    requires resolution > 0 && InRange(segs, minNS, maxNS) && segs != []
    requires IsGreatestConcurrency(segs, peak) && peak > 0
    requires |counts| == (maxNS - minNS) / resolution + 1
    requires forall b :: 0 <= b < |counts| ==> counts[b] == BinCount(segs, minNS, resolution, b)
    ensures exists b :: 0 <= b < |counts| && counts[b] >= peak
  {
    var t :| Concurrent(segs, t) == peak;
    SomeActive(segs, t);
    var s :| s in segs && s.start <= t < s.end;
    var b := (t - minNS) / resolution;
    ClampsNeverFire(Bounds(t, t + 1), minNS, maxNS, resolution);
    BinsOfSegment(Bounds(t, t + 1), minNS, resolution, b);
    TotalMonotone(ActiveAt(t), InBin(minNS + b * resolution, minNS + (b + 1) * resolution), segs);
    assert counts[b] >= peak;
  }
}
