/** At the code size the encoder is called with: exactly when its end-of-information code goes missing. */
module GifLzwEndCode {
  import opened Collections
  import opened GifBits
  import opened GifDecoder
  import opened GifLzw
  import opened GifLzwRoundTrip
  import opened Options

  /** The code size encodeAnimatedGIF passes, for a palette of 256 colours. */
  const MIN_CODE: nat := 8

  // ── How many bits have been written ────────────────────────────────────────

  function IsClear(): Code -> int {
    (c: Code) => if c.value == 256 then 1 else 0
  }

  /** Clear codes written because the table was full; the first one opens the stream. */
  function FullClears(codes: seq<Code>): int {
    Total(IsClear(), codes) - 1
  }

  /** The bits of the first k data codes after a clear: 255 of width 9, 512 of width 10, 1024 of width 11, then 12. */
  function BitsAfter(k: nat): nat {
    if k <= 255 then 9 * k
    else if k <= 767 then 2295 + 10 * (k - 255)
    else if k <= 1791 then 7415 + 11 * (k - 767)
    else 18679 + 12 * (k - 1791)
  }

  /** The bits of a table filled up, with the clear code that follows. */
  const BITS_OF_A_FULL_TABLE: nat := 43255

  function WidthAfter(k: nat): nat {
    if k <= 254 then 9 else if k <= 766 then 10 else if k <= 1790 then 11 else 12
  }

  /** Bits written and width reached, by the number of full tables and of entries since. */
  ghost predicate Counted(e: Encoder) {
    && |e.strings| >= 258 && FullClears(e.codes) >= 0
    && e.codeSize == WidthAfter(|e.strings| - 258)
    && |CodeBits(e.codes)| == 9 + FullClears(e.codes) * BITS_OF_A_FULL_TABLE + BitsAfter(|e.strings| - 258)
  }

  lemma BitsSnoc(codes: seq<Code>, c: Code)
    ensures |CodeBits(codes + [c])| == |CodeBits(codes)| + c.width
    ensures FullClears(codes + [c]) == FullClears(codes) + (if c.value == 256 then 1 else 0)
  {
    assert (codes + [c])[..|codes|] == codes;
    TotalSnoc(IsClear(), codes, c);
  }

  lemma Sizes()
    ensures Pow2(8) == 256 && Pow2(9) == 512 && Pow2(10) == 1024 && Pow2(11) == 2048 && Pow2(12) == 4096
  {
    Pow2Values();
  }

  lemma StartCounted(x: nat)
    requires x < 256
    ensures Counted(Start(MIN_CODE, x))
  {
    Sizes();
    var first := Code(ClearCode(MIN_CODE), MIN_CODE + 1);
    BitsSnoc([], first);
    assert [] + [first] == [first];
  }

  /** A data code is never taken for a clear code. */
  lemma EmitsNoClear(e: Encoder)
    requires Sound(MIN_CODE, e)
    ensures Emit(e).value != 256
  {
    Sizes();
    assert e.strings[256] == RootStrings(MIN_CODE)[256] == [];
  }

  lemma OneMoreCode(k: nat)
    requires k < 3838
    ensures BitsAfter(k + 1) == BitsAfter(k) + WidthAfter(k)
    ensures BitsAfter(3838) + 12 == BITS_OF_A_FULL_TABLE
  {
  }

  lemma ExtendCounted(e: Encoder, x: nat)
    requires Sound(MIN_CODE, e) && Counted(e) && x < 256
    ensures Counted(Extend(MIN_CODE, e, x))
  {
    if e.cur + [x] !in e.strings {
      Sizes();
      EmitsNoClear(e);
      BitsSnoc(e.codes, Emit(e));
      OneMoreCode(|e.strings| - 258);
      if |e.strings| + 1 >= MAX_CODES {
        ClearCounted(e, x);
      }
    }
  }

  lemma ClearCounted(e: Encoder, x: nat)
    requires Sound(MIN_CODE, e) && Counted(e) && x < 256
    requires e.cur + [x] !in e.strings && |e.strings| == 4095
    requires |CodeBits(e.codes + [Emit(e)])| == |CodeBits(e.codes)| + 12
    requires FullClears(e.codes + [Emit(e)]) == FullClears(e.codes)
    ensures Counted(Extend(MIN_CODE, e, x))
  {
    Sizes();
    var clear := Code(ClearCode(MIN_CODE), 12);
    BitsSnoc(e.codes + [Emit(e)], clear);
    OneMoreCode(3837);
    OneMoreFullTable(FullClears(e.codes));
    assert Extend(MIN_CODE, e, x).codes == e.codes + [Emit(e)] + [clear];
  }

  lemma OneMoreFullTable(m: int)
    ensures (m + 1) * BITS_OF_A_FULL_TABLE == m * BITS_OF_A_FULL_TABLE + BITS_OF_A_FULL_TABLE
  {
  }

  lemma {:induction false} EncoderCounted(indices: seq<nat>)
    requires indices != [] && Representable(MIN_CODE, indices)
    ensures Counted(EncodeFrom(MIN_CODE, indices))
  {
    Sizes();
    if |indices| == 1 {
      StartCounted(indices[0]);
    } else {
      var before := indices[..|indices| - 1];
      EncoderCounted(before);
      ExtendCounted(EncodeFrom(MIN_CODE, before), indices[|indices| - 1]);
    }
  }

  // ── The exact condition ────────────────────────────────────────────────────

  /**
   The end code is lost: the table holds a power of two short of 4096 when the last code is written, and
   the full tables before it leave no padding bit behind the end code.
   */
  ghost predicate LosesEnd(e: Encoder) {
    || (|e.strings| == 512 && FullClears(e.codes) % 8 == 1)
    || (|e.strings| == 1024 && FullClears(e.codes) % 8 == 2)
    || (|e.strings| == 2048 && FullClears(e.codes) % 8 == 3)
  }

  lemma AllBits(indices: seq<nat>)
    requires indices != [] && Representable(MIN_CODE, indices)
    ensures |CodeBits(AllCodes(MIN_CODE, indices))|
         == |CodeBits(EncodeFrom(MIN_CODE, indices).codes)| + 2 * EncodeFrom(MIN_CODE, indices).codeSize
  {
    var e := EncodeFrom(MIN_CODE, indices);
    BitsSnoc(e.codes, Emit(e));
    BitsSnoc(e.codes + [Emit(e)], Code(EndCode(MIN_CODE), e.codeSize));
  }

  /** Eight full tables make whole bytes, so only their number modulo eight matters. */
  lemma FullTablesModEight(m: nat, rest: nat)
    ensures (m * BITS_OF_A_FULL_TABLE + rest) % 8 == (rest - m) % 8
  {
    assert m * BITS_OF_A_FULL_TABLE + rest == 8 * (5407 * m) + (rest - m);
  }

  /** No code too narrow, or padding behind it: the two conditions of a lost end code, in closed form. */
  lemma LostIff(indices: seq<nat>)
    requires indices != [] && Representable(MIN_CODE, indices)
    ensures var e := EncodeFrom(MIN_CODE, indices);
      EndCodeTooNarrow(e) && |CodeBits(AllCodes(MIN_CODE, indices))| % 8 == 0 <==> LosesEnd(e)
  {
    EncoderCounted(indices);
    AllBits(indices);
    LostWhen(EncodeFrom(MIN_CODE, indices), |CodeBits(AllCodes(MIN_CODE, indices))|);
  }

  lemma LostWhen(e: Encoder, total: nat)
    requires Counted(e) && total == |CodeBits(e.codes)| + 2 * e.codeSize
    ensures EndCodeTooNarrow(e) && total % 8 == 0 <==> LosesEnd(e)
  {
    var k := |e.strings| - 258;
    FullTablesModEight(FullClears(e.codes), 9 + BitsAfter(k) + 2 * e.codeSize);
    Residues(e, FullClears(e.codes));
  }

  lemma Residues(e: Encoder, m: nat)
    requires |e.strings| >= 258 && e.codeSize == WidthAfter(|e.strings| - 258)
    ensures EndCodeTooNarrow(e) && (9 + BitsAfter(|e.strings| - 258) + 2 * e.codeSize - m) % 8 == 0
       <==> || (|e.strings| == 512 && m % 8 == 1) || (|e.strings| == 1024 && m % 8 == 2)
            || (|e.strings| == 2048 && m % 8 == 3)
  {
    Sizes();
  }

  // ── A stream that loses its end code ───────────────────────────────────────

  /** Zigzag(i) and Zigzag(i + 1) differ by 2 to 9 for even i and by -1 to -8 for odd i, once for each start. */
  function Zigzag(i: nat): (x: nat)
    ensures x < 256
  {
    var u, v := i / 2 % 256, i / 512;
    if i % 2 == 0 then u else (u + v + 2) % 256
  }

  /** Where in the zigzag one index is followed by another. */
  function PairAt(p: nat, q: nat): int {
    var d := if q >= p then q - p else q - p + 256;
    var u := if p + d >= 257 then p + d - 257 else p + d - 1;
    if d < 128 then 512 * (d - 2) + 2 * p else 512 * (255 - d) + 2 * u + 1
  }

  lemma ZigzagParts(i: nat)
    requires i < 4096
    ensures var u, v := i / 2 % 256, i / 512; v < 8 && i == 512 * v + 2 * u + i % 2
    ensures i % 2 == 0 ==> (i + 1) / 2 % 256 == i / 2 % 256 && (i + 1) / 512 == i / 512
    ensures i % 2 == 1 ==> (i + 1) % 2 == 0 && (i + 1) / 2 % 256 == (i / 2 % 256 + 1) % 256
  {
  }

  lemma PairAtZigzag(i: nat)
    requires i < 4096
    ensures PairAt(Zigzag(i), Zigzag(i + 1)) == i
  {
    ZigzagParts(i);
    var u, v := i / 2 % 256, i / 512;
    if i % 2 == 0 {
      PairAtRise(u, v);
    } else {
      PairAtFall(u, v);
    }
  }

  lemma PairAtRise(u: nat, v: nat)
    requires u < 256 && v < 8
    ensures PairAt(u, (u + v + 2) % 256) == 512 * v + 2 * u
  {
  }

  lemma PairAtFall(u: nat, v: nat)
    requires u < 256 && v < 8
    ensures PairAt((u + v + 2) % 256, (u + 1) % 256) == 512 * v + 2 * u + 1
  {
  }

  function Example(n: nat): (s: seq<nat>)
    ensures |s| == n && forall i :: 0 <= i < n ==> s[i] == Zigzag(i)
  {
    seq(n, i requires 0 <= i < n => Zigzag(i))
  }

  lemma ExampleRepresentable(n: nat)
    ensures Representable(MIN_CODE, Example(n))
  {
    Sizes();
  }

  /** No pair of the example is a string of the table before it comes. */
  ghost predicate PairsSoFar(e: Encoder, n: nat) {
    forall s :: s in e.strings && |s| > 1 ==> |s| == 2 && 0 <= PairAt(s[0], s[1]) < n - 1
  }

  /** After n indices of the example: one code each, no pair having been seen before. */
  ghost predicate OneCodeEach(e: Encoder, n: nat) {
    && n > 0 && e.cur == [Zigzag(n - 1)] && PairsSoFar(e, n)
    && |e.strings| >= 258 && n - 1 == 3838 * FullClears(e.codes) + (|e.strings| - 258)
  }

  lemma StartOneCode()
    ensures OneCodeEach(Start(MIN_CODE, Zigzag(0)), 1)
  {
    Sizes();
    var first := Code(ClearCode(MIN_CODE), MIN_CODE + 1);
    BitsSnoc([], first);
    assert [] + [first] == [first];
    RootsAreShort();
  }

  lemma RootsAreShort()
    ensures forall s :: s in RootStrings(MIN_CODE) ==> |s| <= 1
  {
  }

  lemma NewPair(e: Encoder, n: nat, s: seq<nat>)
    requires PairsSoFar(e, n) && |s| == 2 && PairAt(s[0], s[1]) == n - 1
    ensures s !in e.strings
  {
  }

  lemma NextPairIsNew(e: Encoder, n: nat)
    requires OneCodeEach(e, n) && n < 4096
    ensures e.cur + [Zigzag(n)] == [Zigzag(n - 1), Zigzag(n)]
    ensures e.cur + [Zigzag(n)] !in e.strings
  {
    PairAtZigzag(n - 1);
    NewPair(e, n, [Zigzag(n - 1), Zigzag(n)]);
  }

  lemma ExtendOneCode(e: Encoder, n: nat)
    requires Sound(MIN_CODE, e) && OneCodeEach(e, n) && n < 4096
    ensures OneCodeEach(Extend(MIN_CODE, e, Zigzag(n)), n + 1)
  {
    Sizes();
    NextPairIsNew(e, n);
    PairAtZigzag(n - 1);
    EmitsNoClear(e);
    BitsSnoc(e.codes, Emit(e));
    var next := Extend(MIN_CODE, e, Zigzag(n));
    if |e.strings| + 1 >= MAX_CODES {
      BitsSnoc(e.codes + [Emit(e)], next.codes[|next.codes| - 1]);
      assert next.codes == e.codes + [Emit(e)] + [next.codes[|next.codes| - 1]];
      RootsAreShort();
    } else {
      assert next.strings == e.strings + [[Zigzag(n - 1), Zigzag(n)]];
    }
  }

  lemma {:induction false} ExampleOneCode(n: nat)
    requires 0 < n <= 4096
    ensures Representable(MIN_CODE, Example(n)) && OneCodeEach(EncodeFrom(MIN_CODE, Example(n)), n)
  {
    ExampleRepresentable(n);
    if n == 1 {
      StartOneCode();
    } else {
      ExampleOneCode(n - 1);
      assert Example(n)[..n - 1] == Example(n - 1);
      ExtendOneCode(EncodeFrom(MIN_CODE, Example(n - 1)), n - 1);
    }
  }

  /** The pixels are all there and the end code is met exactly when LosesEnd says not. */
  lemma EndMet(indices: seq<nat>, bits: Bits)
    requires indices != [] && Representable(MIN_CODE, indices)
    requires bits == CodeBits(AllCodes(MIN_CODE, indices)) && |bits| % 8 == 0
    ensures ReadPixels(MIN_CODE, bits, |indices|) == Some(indices)
    ensures EndsCleanly(MIN_CODE, bits, |indices|) <==> !LosesEnd(EncodeFrom(MIN_CODE, indices))
  {
    LostIff(indices);
    assert bits + Zeros(0) == bits;
    EndCodeRead(MIN_CODE, indices, 0);
    PixelsRoundTrip(MIN_CODE, indices, Zeros(0), |indices|);
    assert indices[..|indices|] == indices;
  }

  lemma OneFullTable(n: nat, e: Encoder)
    requires n == 4093 && 258 <= |e.strings| < MAX_CODES
    requires n - 1 == 3838 * FullClears(e.codes) + (|e.strings| - 258)
    ensures LosesEnd(e)
  {
    assert FullClears(e.codes) == 1;
  }

  /** One table filled and 255 codes after it: every pixel can be read, the end code cannot. */
  lemma EndCodeLost(n: nat, indices: seq<nat>, bits: Bits)
    requires n == 4093 && indices == Example(n)
    requires Representable(MIN_CODE, indices) ==> bits == CodeBits(AllCodes(MIN_CODE, indices))
    ensures Representable(MIN_CODE, indices) && |bits| % 8 == 0
    ensures ReadPixels(MIN_CODE, bits, |indices|) == Some(indices)
    ensures !EndsCleanly(MIN_CODE, bits, |indices|)
  {
    ExampleOneCode(n);
    OneFullTable(n, EncodeFrom(MIN_CODE, indices));
    LostIff(indices);
    EndMet(indices, bits);
  }
}
