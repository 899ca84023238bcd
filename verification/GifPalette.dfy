/** Colour collection, median-cut reduction and nearest-colour quantisation. */
module GifPalette {
  import opened Collections
  import opened GifBits

  datatype Rgb = Rgb(r: Byte, g: Byte, b: Byte)

  const BLACK := Rgb(0, 0, 0)

  /** One frame: RGBA bytes, row by row, and its delay in hundredths of a second. */
  datatype Frame = Frame(pixels: seq<Byte>, delayCs: nat)

  function Channel(c: Rgb, axis: nat): Byte {
    if axis == 0 then c.r else if axis == 1 then c.g else c.b
  }

  function PixelAt(pixels: seq<Byte>, i: nat): Rgb
    requires 4 * i + 3 < |pixels|
  {
    Rgb(pixels[4 * i], pixels[4 * i + 1], pixels[4 * i + 2])
  }

  /** The map key of a colour. */
  function PackedRgb(c: Rgb): nat {
    c.r * 65536 + c.g * 256 + c.b
  }

  lemma KeysDiffer(c: Rgb)
    ensures forall d: Rgb :: PackedRgb(d) == PackedRgb(c) ==> d == c
  {
  }

  /** Every frame has the canvas's pixels; a longer buffer is allowed. */
  ghost predicate Canvas(frames: seq<Frame>, width: nat, height: nat) {
    forall f :: f in frames ==> |f.pixels| >= 4 * (width * height)
  }

  // ── Collecting colours ─────────────────────────────────────────────────────

  lemma InCanvas(width: nat, height: nat, x: nat, y: nat)
    requires x < width && y < height
    ensures 0 <= y * width + x < width * height
  {
    assert y * width <= (height - 1) * width;
    assert (height - 1) * width == width * height - width;
  }

  /** c is the colour of the pixel in column x of row y, both even. */
  ghost predicate SampledAt(frames: seq<Frame>, width: nat, height: nat, c: Rgb, k: nat, y: nat, x: nat)
    requires Canvas(frames, width, height)
  {
    && k < |frames| && y < height && x < width && y % 2 == 0 && x % 2 == 0
    && (InCanvas(width, height, x, y); PixelAt(frames[k].pixels, y * width + x) == c)
  }

  ghost predicate Sampled(frames: seq<Frame>, width: nat, height: nat, c: Rgb)
    requires Canvas(frames, width, height)
  {
    exists k: nat, y: nat, x: nat :: SampledAt(frames, width, height, c, k, y, x)
  }

  /** The order in which the sampling loops visit pixels. */
  ghost predicate Before(k: nat, y: nat, x: nat, k': nat, y': nat, x': nat) {
    k < k' || (k == k' && (y < y' || (y == y' && x < x')))
  }

  /** colors are, without repeats, the colours sampled before a point of the scan. */
  ghost predicate Collected(frames: seq<Frame>, width: nat, height: nat, colors: seq<Rgb>, k: nat, y: nat, x: nat)
    requires Canvas(frames, width, height)
  {
    && NoRepeats(colors)
    && (forall c :: c in colors ==> Sampled(frames, width, height, c))
    && (forall c, k', y', x' ::
          SampledAt(frames, width, height, c, k', y', x') && Before(k', y', x', k, y, x) ==> c in colors)
  }

  lemma PixelDone(frames: seq<Frame>, width: nat, height: nat, colors: seq<Rgb>, k: nat, y: nat, x: nat, c: Rgb)
    requires Canvas(frames, width, height) && Collected(frames, width, height, colors, k, y, x)
    requires SampledAt(frames, width, height, c, k, y, x)
    ensures Collected(frames, width, height, if c in colors then colors else colors + [c], k, y, x + 2)
  {
    var after := if c in colors then colors else colors + [c];
    forall d, k', y', x' | SampledAt(frames, width, height, d, k', y', x') && Before(k', y', x', k, y, x + 2)
      ensures d in after
    {
      if !Before(k', y', x', k, y, x) {
        assert x' == x;
      }
    }
  }

  lemma RowDone(frames: seq<Frame>, width: nat, height: nat, colors: seq<Rgb>, k: nat, y: nat, x: nat)
    requires Canvas(frames, width, height) && Collected(frames, width, height, colors, k, y, x)
    requires x >= width && y % 2 == 0
    ensures Collected(frames, width, height, colors, k, y + 2, 0)
  {
  }

  lemma FrameDone(frames: seq<Frame>, width: nat, height: nat, colors: seq<Rgb>, k: nat, y: nat)
    requires Canvas(frames, width, height) && Collected(frames, width, height, colors, k, y, 0)
    requires y >= height
    ensures Collected(frames, width, height, colors, k + 1, 0, 0)
  {
  }

  /** The keys of the insertion-ordered map of colours seen. */
  ghost predicate Keys(seen: set<nat>, colors: seq<Rgb>) {
    forall c: Rgb :: c in colors <==> PackedRgb(c) in seen
  }

  /** Exactly the colours on even rows and columns, each once. */
  method CollectColors(frames: seq<Frame>, width: nat, height: nat) returns (colors: seq<Rgb>)
    requires Canvas(frames, width, height)
    ensures NoRepeats(colors)
    ensures forall c :: c in colors <==> Sampled(frames, width, height, c)
  {
    var seen: set<nat> := {};
    colors := [];
    for k := 0 to |frames|
      invariant Collected(frames, width, height, colors, k, 0, 0) && Keys(seen, colors)
    {
      colors, seen := CollectFrame(frames, width, height, k, colors, seen);
    }
    forall c | Sampled(frames, width, height, c)
      ensures c in colors
    {
      var k, y, x :| SampledAt(frames, width, height, c, k, y, x);
      assert Before(k, y, x, |frames|, 0, 0);
    }
  }

  /** The scan of one frame. */
  method CollectFrame(frames: seq<Frame>, width: nat, height: nat, k: nat, colors0: seq<Rgb>, seen0: set<nat>)
    returns (colors: seq<Rgb>, seen: set<nat>)
    requires Canvas(frames, width, height) && k < |frames|
    requires Collected(frames, width, height, colors0, k, 0, 0) && Keys(seen0, colors0)
    ensures Collected(frames, width, height, colors, k + 1, 0, 0) && Keys(seen, colors)
  {
    colors, seen := colors0, seen0;
    var y := 0;
    while y < height
      invariant y % 2 == 0 && Collected(frames, width, height, colors, k, y, 0) && Keys(seen, colors)
    {
      var x := 0;
      while x < width
        invariant x % 2 == 0 && Collected(frames, width, height, colors, k, y, x) && Keys(seen, colors)
      {
        InCanvas(width, height, x, y);
        var c := PixelAt(frames[k].pixels, y * width + x);
        assert SampledAt(frames, width, height, c, k, y, x);
        PixelDone(frames, width, height, colors, k, y, x, c);
        if PackedRgb(c) !in seen {
          KeyAdded(seen, colors, c);
          seen := seen + {PackedRgb(c)};
          colors := colors + [c];
        }
        x := x + 2;
      }
      RowDone(frames, width, height, colors, k, y, x);
      y := y + 2;
    }
    FrameDone(frames, width, height, colors, k, y);
  }

  lemma KeyAdded(seen: set<nat>, colors: seq<Rgb>, c: Rgb)
    requires Keys(seen, colors)
    ensures Keys(seen + {PackedRgb(c)}, colors + [c])
  {
    KeysDiffer(c);
  }
}
