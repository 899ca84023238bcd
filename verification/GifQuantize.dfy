/** The 256-colour palette of a set of frames and the memoised mapping of pixels onto it. */
module GifQuantize {
  import opened Collections
  import opened GifBits
  import opened GifMedianCut
  import opened GifPalette

  type Palette = p: seq<Rgb> | |p| == 256 witness seq(256, _ => BLACK)

  function Distance(c: Rgb, d: Rgb): (n: nat)
    ensures n == 0 <==> c == d
  {
    var dr, dg, db := c.r - d.r, c.g - d.g, c.b - d.b;
    SquaresPositive(dr, dg, db);
    dr * dr + dg * dg + db * db
  }

  /** The squared distance is that of each channel, added up. */
  lemma DistancePerChannel(c: Rgb, d: Rgb)
    ensures Distance(c, d) == Distance(c, Rgb(d.r, c.g, c.b)) + Distance(c, Rgb(c.r, d.g, c.b))
                            + Distance(c, Rgb(c.r, c.g, d.b))
    ensures Distance(c, Rgb(d.r, c.g, c.b)) == (d.r - c.r) * (d.r - c.r)
    ensures Distance(c, Rgb(c.r, d.g, c.b)) == (d.g - c.g) * (d.g - c.g)
    ensures Distance(c, Rgb(c.r, c.g, d.b)) == (d.b - c.b) * (d.b - c.b)
  {
    SameSquare(c.r, d.r);
    SameSquare(c.g, d.g);
    SameSquare(c.b, d.b);
  }

  lemma SameSquare(x: int, y: int)
    ensures (x - y) * (x - y) == (y - x) * (y - x)
  {
  }

  lemma SquaresPositive(x: int, y: int, z: int)
    ensures x * x >= 0 && y * y >= 0 && z * z >= 0
    ensures x * x + y * y + z * z == 0 <==> x == 0 && y == 0 && z == 0
  {
  }

  /** The first of the palette entries closest to c. */
  ghost predicate Nearest(c: Rgb, palette: Palette, idx: int) {
    && 0 <= idx < 256
    && (forall p :: 0 <= p < 256 ==> Distance(c, palette[idx]) <= Distance(c, palette[p]))
    && (forall p :: 0 <= p < idx ==> Distance(c, palette[idx]) < Distance(c, palette[p]))
  }

  /** A colour that is in the palette is represented exactly. */
  lemma ExactWhenPresent(c: Rgb, palette: Palette, idx: int)
    requires c in palette && Nearest(c, palette, idx)
    ensures palette[idx] == c
  {
  }

  method NearestIndex(c: Rgb, palette: Palette) returns (bestIdx: Byte)
    ensures Nearest(c, palette, bestIdx)
  {
    bestIdx := 0;
    var bestDist := Distance(c, palette[0]) + 1; // stands for Infinity: anything at entry 0 is closer
    for p := 0 to 256
      invariant p == 0 ==> bestIdx == 0 && bestDist == Distance(c, palette[0]) + 1
      invariant p > 0 ==> bestIdx < p && bestDist == Distance(c, palette[bestIdx])
      invariant forall q :: 0 <= q < p ==> bestDist <= Distance(c, palette[q])
      invariant forall q :: 0 <= q < bestIdx ==> bestDist < Distance(c, palette[q])
    {
      var dist := Distance(c, palette[p]);
      if dist < bestDist {
        bestDist, bestIdx := dist, p;
      }
    }
  }

  /** The map from packed colour to palette index, shared by all frames and filled in as they are mapped. */
  class ColorMap {
    var entries: map<nat, Byte>

    constructor ()
      ensures entries == map[]
    {
      entries := map[];
    }
  }

  /** Everything remembered is right. */
  ghost predicate Remembers(entries: map<nat, Byte>, palette: Palette) {
    forall c: Rgb :: PackedRgb(c) in entries ==> Nearest(c, palette, entries[PackedRgb(c)])
  }

  lemma RemembersOneMore(entries: map<nat, Byte>, palette: Palette, c: Rgb, idx: Byte)
    requires Remembers(entries, palette) && Nearest(c, palette, idx)
    ensures Remembers(entries[PackedRgb(c) := idx], palette)
  {
  }

  method BuildPaletteAndMap(frames: seq<Frame>, width: nat, height: nat) returns (palette: Palette, colorMap: ColorMap)
    requires Canvas(frames, width, height)
    ensures fresh(colorMap) && Remembers(colorMap.entries, palette)
    ensures forall c :: Sampled(frames, width, height, c) ==> PackedRgb(c) in colorMap.entries
    ensures FewColors(frames, width, height) ==> forall c :: Sampled(frames, width, height, c) ==> c in palette
  {
    var unique := CollectColors(frames, width, height);
    var reduced := MedianCut(unique, 256);
    while |reduced| < 256
      invariant |reduced| <= 256
      invariant |unique| <= 256 ==> forall c :: c in unique ==> c in reduced
    {
      reduced := reduced + [BLACK];
    }
    palette := reduced[..256];
    assert palette == reduced;
    colorMap := new ColorMap();
    for i := 0 to |unique|
      invariant fresh(colorMap) && Remembers(colorMap.entries, palette)
      invariant forall j :: 0 <= j < i ==> PackedRgb(unique[j]) in colorMap.entries
    {
      var idx := NearestIndex(unique[i], palette);
      RemembersOneMore(colorMap.entries, palette, unique[i], idx);
      colorMap.entries := colorMap.entries[PackedRgb(unique[i]) := idx];
    }
    if FewColors(frames, width, height) {
      var colors: seq<Rgb> :| |colors| <= 256 && forall c :: Sampled(frames, width, height, c) ==> c in colors;
      NoMoreThan(unique, colors);
    }
  }

  /** At most 256 colours cover everything sampled. */
  ghost predicate FewColors(frames: seq<Frame>, width: nat, height: nat)
    requires Canvas(frames, width, height)
  {
    exists colors: seq<Rgb> :: |colors| <= 256 && forall c :: Sampled(frames, width, height, c) ==> c in colors
  }

  lemma NoMoreThan(a: seq<Rgb>, b: seq<Rgb>)
    requires NoRepeats(a) && forall c :: c in a ==> c in b
    ensures |a| <= |b|
  {
    Cardinality(a);
    AtMost(b);
    SubsetSize(set c | c in a, set c | c in b);
  }

  lemma {:induction false} SubsetSize(a: set<Rgb>, b: set<Rgb>)
    requires a <= b
    ensures |a| <= |b|
  {
    assert b == a + (b - a);
  }

  lemma {:induction false} AtMost(a: seq<Rgb>)
    ensures |set c | c in a| <= |a|
  {
    if a != [] {
      var rest := a[..|a| - 1];
      AtMost(rest);
      assert (set c | c in a) == (set c | c in rest) + {a[|a| - 1]};
    }
  }

  lemma {:induction false} Cardinality(a: seq<Rgb>)
    requires NoRepeats(a)
    ensures |set c | c in a| == |a|
  {
    if a != [] {
      var rest := a[..|a| - 1];
      Cardinality(rest);
      assert (set c | c in a) == (set c | c in rest) + {a[|a| - 1]};
    }
  }

  /** Every pixel goes to a nearest entry, whether remembered or computed now. */
  method QuantizeFrame(pixels: seq<Byte>, palette: Palette, colorMap: ColorMap) returns (out: array<Byte>)
    requires Remembers(colorMap.entries, palette)
    modifies colorMap
    ensures Remembers(colorMap.entries, palette)
    ensures fresh(out) && out.Length == |pixels| / 4
    ensures forall i :: 0 <= i < out.Length ==> Nearest(PixelAt(pixels, i), palette, out[i])
  {
    var n := |pixels| / 4;
    out := new Byte[n](_ => 0);
    for i := 0 to n
      invariant Remembers(colorMap.entries, palette)
      invariant forall j :: 0 <= j < i ==> Nearest(PixelAt(pixels, j), palette, out[j])
    {
      var c := PixelAt(pixels, i);
      var key := PackedRgb(c);
      var idx: Byte;
      if key in colorMap.entries {
        idx := colorMap.entries[key];
      } else {
        idx := NearestIndex(c, palette);
        RemembersOneMore(colorMap.entries, palette, c, idx);
        colorMap.entries := colorMap.entries[key := idx];
      }
      out[i] := idx;
    }
  }
}
