/** The decoder of Appendix F undoes the LZW encoder, code by code and then bit by bit. */
module GifLzwRoundTrip {
  import opened GifBits
  import opened GifDecoder
  import opened GifLzw
  import opened Options

  /** The decoder after a run of codes, each written at the width the decoder is about to read. */
  ghost function Run(minCodeSize: nat, codes: seq<Code>): (r: Option<Decoder>)
    ensures r.Some? ==> r.value.width > 0
  {
    if codes == [] then Some(Fresh(minCodeSize, []))
    else
      var last := codes[|codes| - 1];
      match Run(minCodeSize, codes[..|codes| - 1])
      case None => None
      case Some(d) =>
        if last.width == d.width && last.value < Pow2(d.width) then Step(minCodeSize, d, last.value) else None
  }

  /** One entry behind: the decoder's table plus the entry only the encoder can complete so far. */
  ghost predicate InStep(minCodeSize: nat, e: Encoder, d: Decoder) {
    && d.width == e.codeSize
    && e.cur != []
    && (d.prev == [] ==> d.table == e.strings == RootStrings(minCodeSize))
    && (d.prev != [] ==> e.strings == d.table + [d.prev + [e.cur[0]]])
  }

  /** Reading the code just emitted yields the emitted string, even when its entry is still open. */
  lemma ReadsEmitted(minCodeSize: nat, e: Encoder, d: Decoder)
    requires Sound(minCodeSize, e) && InStep(minCodeSize, e, d)
    ensures var c := Emit(e);
      && c.width == d.width && c.value < Pow2(d.width)
      && Step(minCodeSize, d, c.value).Some?
      && var d' := Step(minCodeSize, d, c.value).value;
      && d'.out == d.out + e.cur && d'.prev == e.cur && d'.table == e.strings
      && d'.width == (if d.prev != [] && |e.strings| == Pow2(d.width) && d.width < MAX_WIDTH then d.width + 1
                      else d.width)
  {
  }

  /** The encoder's state after a prefix, and what the decoder knows from the codes so far. */
  ghost predicate Decodes(minCodeSize: nat, e: Encoder, indices: seq<nat>) {
    && Run(minCodeSize, e.codes).Some?
    && var d := Run(minCodeSize, e.codes).value;
    && InStep(minCodeSize, e, d)
    && d.out + e.cur == indices
  }

  lemma StartDecodes(minCodeSize: nat, first: nat)
    requires 2 <= minCodeSize <= 8
    ensures Decodes(minCodeSize, Start(minCodeSize, first), [first])
  {
  }

  lemma RunSnoc(minCodeSize: nat, codes: seq<Code>, c: Code)
    requires Run(minCodeSize, codes).Some?
    requires c.width == Run(minCodeSize, codes).value.width && c.value < Pow2(c.width)
    ensures Run(minCodeSize, codes + [c]) == Step(minCodeSize, Run(minCodeSize, codes).value, c.value)
  {
  }

  /** A clear code takes the decoder back to the roots, whatever it had learnt. */
  lemma ClearResets(minCodeSize: nat, codes: seq<Code>)
    requires 2 <= minCodeSize <= 8 && Run(minCodeSize, codes).Some?
    requires Run(minCodeSize, codes).value.width == MAX_WIDTH
    ensures Run(minCodeSize, codes + [Code(ClearCode(minCodeSize), MAX_WIDTH)])
         == Some(Fresh(minCodeSize, Run(minCodeSize, codes).value.out))
  {
    Pow2Values();
    Pow2Grows(minCodeSize, 8);
    RunSnoc(minCodeSize, codes, Code(ClearCode(minCodeSize), MAX_WIDTH));
  }

  lemma ExtendDecodes(minCodeSize: nat, e: Encoder, indices: seq<nat>, x: nat)
    requires Sound(minCodeSize, e) && Decodes(minCodeSize, e, indices) && x < Pow2(minCodeSize)
    ensures Decodes(minCodeSize, Extend(minCodeSize, e, x), indices + [x])
  {
    var d := Run(minCodeSize, e.codes).value;
    if e.cur + [x] in e.strings {
      assert d.out + (e.cur + [x]) == indices + [x];
    } else {
      ReadsEmitted(minCodeSize, e, d);
      RunSnoc(minCodeSize, e.codes, Emit(e));
      var codes, d' := e.codes + [Emit(e)], Step(minCodeSize, d, Emit(e).value).value;
      assert d'.out == indices;
      WidthsAgree(minCodeSize, e, d);
      if |e.strings| + 1 == MAX_CODES {
        ClearResets(minCodeSize, codes);
        assert Extend(minCodeSize, e, x).codes == codes + [Code(ClearCode(minCodeSize), MAX_WIDTH)];
      } else {
        assert Extend(minCodeSize, e, x) == Encoder(e.strings + [e.cur + [x]], d'.width, [x], codes);
      }
    }
  }

  /** Growing on "next free code past 2^width" here is growing on "table full to 2^width" one entry behind. */
  lemma WidthsAgree(minCodeSize: nat, e: Encoder, d: Decoder)
    requires Sound(minCodeSize, e) && InStep(minCodeSize, e, d)
    ensures var grows := |e.strings| + 1 > Pow2(e.codeSize) && e.codeSize < MAX_WIDTH;
      && grows == (d.prev != [] && |e.strings| == Pow2(d.width) && d.width < MAX_WIDTH)
      && (|e.strings| + 1 == MAX_CODES ==> !grows && e.codeSize == MAX_WIDTH)
  {
    RootsSound(minCodeSize);
    Pow2Values();
    if e.codeSize < MAX_WIDTH {
      Pow2Grows(e.codeSize, 11);
    }
  }

  lemma {:induction false} EncodeDecodes(minCodeSize: nat, indices: seq<nat>)
    requires indices != [] && Representable(minCodeSize, indices)
    ensures Decodes(minCodeSize, EncodeFrom(minCodeSize, indices), indices)
  {
    if |indices| == 1 {
      StartDecodes(minCodeSize, indices[0]);
      assert indices == [indices[0]];
    } else {
      var before, x := indices[..|indices| - 1], indices[|indices| - 1];
      assert indices == before + [x];
      EncodeDecodes(minCodeSize, before);
      EncodeSnoc(minCodeSize, before, x);
      ExtendDecodes(minCodeSize, EncodeFrom(minCodeSize, before), before, x);
    }
  }

  // ── From codes to bits ─────────────────────────────────────────────────────

  /** Codes written one after the other, each at its own width. */
  ghost function CodeBits(codes: seq<Code>): Bits {
    if codes == [] then []
    else CodeBits(codes[..|codes| - 1]) + BitsOf(codes[|codes| - 1].value, codes[|codes| - 1].width)
  }

  lemma CodeBitsSnoc(codes: seq<Code>, c: Code)
    ensures CodeBits(codes + [c]) == CodeBits(codes) + BitsOf(c.value, c.width)
  {
  }

  /** Unpacking bits and decoding codes are the same thing, until the pixels wanted are there. */
  lemma {:induction false} ReadFollows(minCodeSize: nat, codes: seq<Code>, rest: Bits, n: nat)
    requires codes != [] && Run(minCodeSize, codes).Some?
    requires |Run(minCodeSize, codes[..|codes| - 1]).value.out| < n
    ensures Read(minCodeSize, Fresh(minCodeSize, []), CodeBits(codes) + rest, n)
         == Read(minCodeSize, Run(minCodeSize, codes).value, rest, n)
  {
    var before, last := codes[..|codes| - 1], codes[|codes| - 1];
    var d, bits := Run(minCodeSize, before).value, BitsOf(last.value, last.width) + rest;
    assert CodeBits(codes) + rest == CodeBits(before) + bits;
    if before != [] {
      ReadFollows(minCodeSize, before, bits, n);
    }
    assert Read(minCodeSize, Fresh(minCodeSize, []), CodeBits(codes) + rest, n) == Read(minCodeSize, d, bits, n) by {
      if before == [] {
        assert CodeBits(codes) + rest == bits;
      }
    }
    assert bits[..d.width] == BitsOf(last.value, last.width) && bits[d.width..] == rest;
    ValueOfBits(last.value, last.width);
  }

  lemma RunBefore(minCodeSize: nat, codes: seq<Code>, n: nat)
    requires codes != [] && Run(minCodeSize, codes).Some?
    ensures var before := Run(minCodeSize, codes[..|codes| - 1]);
      before.Some? && (n <= |before.value.out| ==>
        n <= |Run(minCodeSize, codes).value.out| && before.value.out[..n] == Run(minCodeSize, codes).value.out[..n])
  {
  }

  /** The pixels wanted appear with the last code. */
  lemma ReadsLast(minCodeSize: nat, codes: seq<Code>, rest: Bits, n: nat)
    requires codes != [] && Run(minCodeSize, codes).Some? && n <= |Run(minCodeSize, codes).value.out|
    requires |Run(minCodeSize, codes[..|codes| - 1]).value.out| < n
    ensures ReadPixels(minCodeSize, CodeBits(codes) + rest, n) == Some(Run(minCodeSize, codes).value.out[..n])
  {
    ReadFollows(minCodeSize, codes, rest, n);
  }

  lemma {:induction false} ReadsPrefix(minCodeSize: nat, codes: seq<Code>, rest: Bits, n: nat)
    requires Run(minCodeSize, codes).Some? && n <= |Run(minCodeSize, codes).value.out|
    ensures ReadPixels(minCodeSize, CodeBits(codes) + rest, n) == Some(Run(minCodeSize, codes).value.out[..n])
  {
    if codes != [] {
      var before, last := codes[..|codes| - 1], codes[|codes| - 1];
      RunBefore(minCodeSize, codes, n);
      if n <= |Run(minCodeSize, before).value.out| {
        ReadsPrefix(minCodeSize, before, BitsOf(last.value, last.width) + rest, n);
        assert CodeBits(codes) + rest == CodeBits(before) + (BitsOf(last.value, last.width) + rest);
      } else {
        ReadsLast(minCodeSize, codes, rest, n);
      }
    }
  }

  /** Everything the encoder writes for a stream, without the end-of-information code. */
  ghost function DataCodes(minCodeSize: nat, indices: seq<nat>): seq<Code>
    requires indices != [] && Representable(minCodeSize, indices)
  {
    var e := EncodeFrom(minCodeSize, indices);
    e.codes + [Emit(e)]
  }

  /** The end code goes out at the width of the last data code: no insertion follows that one. */
  ghost function AllCodes(minCodeSize: nat, indices: seq<nat>): seq<Code>
    requires indices != [] && Representable(minCodeSize, indices)
  {
    DataCodes(minCodeSize, indices) + [Code(EndCode(minCodeSize), EncodeFrom(minCodeSize, indices).codeSize)]
  }

  lemma DataDecodes(minCodeSize: nat, indices: seq<nat>)
    requires indices != [] && Representable(minCodeSize, indices)
    ensures var e, r := EncodeFrom(minCodeSize, indices), Run(minCodeSize, DataCodes(minCodeSize, indices));
      && r.Some? && r.value.out == indices
      && |Run(minCodeSize, e.codes).value.out| < |indices|
      && r.value.width == (if |e.strings| == Pow2(e.codeSize) && e.codeSize < MAX_WIDTH then e.codeSize + 1
                           else e.codeSize)
  {
    var e := EncodeFrom(minCodeSize, indices);
    EncodeDecodes(minCodeSize, indices);
    ReadsEmitted(minCodeSize, e, Run(minCodeSize, e.codes).value);
    RunSnoc(minCodeSize, e.codes, Emit(e));
    RootsSound(minCodeSize);
  }

  /**
   The round trip: whatever follows the codes, a decoder asked for any number of leading
   pixels of the stream gets exactly those.
   */
  lemma PixelsRoundTrip(minCodeSize: nat, indices: seq<nat>, tail: Bits, n: nat)
    requires indices != [] && Representable(minCodeSize, indices) && n <= |indices|
    ensures ReadPixels(minCodeSize, CodeBits(AllCodes(minCodeSize, indices)) + tail, n) == Some(indices[..n])
  {
    DataDecodes(minCodeSize, indices);
    var end := Code(EndCode(minCodeSize), EncodeFrom(minCodeSize, indices).codeSize);
    ReadsBeforeEnd(minCodeSize, DataCodes(minCodeSize, indices), end, tail, n);
  }

  lemma ReadsBeforeEnd(minCodeSize: nat, codes: seq<Code>, end: Code, tail: Bits, n: nat)
    requires Run(minCodeSize, codes).Some? && n <= |Run(minCodeSize, codes).value.out|
    ensures ReadPixels(minCodeSize, CodeBits(codes + [end]) + tail, n) == Some(Run(minCodeSize, codes).value.out[..n])
  {
    CodeBitsSnoc(codes, end);
    Regrouped(CodeBits(codes), BitsOf(end.value, end.width), tail);
    ReadsPrefix(minCodeSize, codes, BitsOf(end.value, end.width) + tail, n);
  }

  lemma Regrouped(a: Bits, b: Bits, c: Bits)
    ensures (a + b) + c == a + (b + c)
  {
  }

  /** The insertion the encoder skips after its last data code would have widened the codes. */
  ghost predicate EndCodeTooNarrow(e: Encoder) {
    |e.strings| == Pow2(e.codeSize) && e.codeSize < MAX_WIDTH
  }

  /**
   A decoder that keeps reading after the last pixel meets the end code unless that code is one
   bit too narrow for it and no padding bit happens to follow.
   */
  lemma EndCodeRead(minCodeSize: nat, indices: seq<nat>, padding: nat)
    requires indices != [] && Representable(minCodeSize, indices)
    ensures EndsCleanly(minCodeSize, CodeBits(AllCodes(minCodeSize, indices)) + Zeros(padding), |indices|)
       <==> !(EndCodeTooNarrow(EncodeFrom(minCodeSize, indices)) && padding == 0)
  {
    DataDecodes(minCodeSize, indices);
    var e := EncodeFrom(minCodeSize, indices);
    var data, all := DataCodes(minCodeSize, indices), AllCodes(minCodeSize, indices);
    var d, end := Run(minCodeSize, data).value, BitsOf(EndCode(minCodeSize), e.codeSize);
    var rest := end + Zeros(padding);
    assert all[..|all| - 1] == data && data[..|data| - 1] == e.codes;
    assert CodeBits(all) + Zeros(padding) == CodeBits(data) + rest;
    ReadFollows(minCodeSize, data, rest, |indices|);
    RootsSound(minCodeSize);
    Pow2Grows(minCodeSize + 1, e.codeSize);
    PaddedCode(EndCode(minCodeSize), e.codeSize, padding, d.width);
  }

  /** A code read at its own width or one more: zero padding makes up for the missing top bit. */
  lemma PaddedCode(code: nat, w: nat, padding: nat, width: nat)
    requires code < Pow2(w) && w <= width <= w + 1
    ensures var rest := BitsOf(code, w) + Zeros(padding);
      (|rest| >= width && Value(rest[..width]) == code) <==> (width == w || padding > 0)
  {
    var rest := BitsOf(code, w) + Zeros(padding);
    if width == w {
      assert rest[..width] == BitsOf(code, w);
      ValueOfBits(code, w);
    } else if padding > 0 {
      assert rest[..width] == BitsOf(code, w) + [false];
      ValueOfBitsThenOne(code, w, false);
    }
  }
}
