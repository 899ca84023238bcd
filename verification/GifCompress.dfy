/** The compressor as written: a direct-addressed code table, bit packing and sub-blocks. */
module GifCompress {
  import opened GifBits
  import opened GifByteWriter
  import opened GifDecoder
  import opened GifLzw
  import opened GifLzwRoundTrip
  import opened Options

  const TABLE_SIZE: nat := 4096 * 256

  /** The slot of a code table row for one more index. */
  function Key(prefix: nat, suffix: nat): (k: nat)
    ensures prefix < 4096 && suffix < 256 ==> k < TABLE_SIZE
  {
    prefix * 256 + suffix
  }

  /** The table finds exactly the one-index extensions that have a code. */
  ghost predicate TableOf(table: seq<int>, strings: seq<seq<nat>>) {
    && |table| == TABLE_SIZE
    && (forall p: nat, x: nat :: p < 4096 && x < 256 ==> -1 <= table[Key(p, x)] < |strings|)
    && (forall p: nat, x: nat :: p < |strings| && p < 4096 && x < 256 && strings[p] != [] ==>
          if table[Key(p, x)] >= 0 then strings[table[Key(p, x)]] == strings[p] + [x] else strings[p] + [x] !in strings)
    && (forall p: nat, x: nat :: |strings| <= p < 4096 && x < 256 ==> table[Key(p, x)] == -1)
  }

  ghost predicate Empty(table: seq<int>) {
    |table| == TABLE_SIZE && forall k :: 0 <= k < TABLE_SIZE ==> table[k] == -1
  }

  lemma EmptyTable(table: seq<int>, minCodeSize: nat)
    requires Empty(table) && 2 <= minCodeSize <= 8
    ensures TableOf(table, RootStrings(minCodeSize))
    ensures PrefixClosed(RootStrings(minCodeSize)) && Distinct(RootStrings(minCodeSize))
  {
  }

  /** Writing one slot adds one string. */
  lemma TableAdd(table: seq<int>, strings: seq<seq<nat>>, p: nat, x: nat)
    requires TableOf(table, strings) && Distinct(strings) && PrefixClosed(strings) && |strings| < MAX_CODES
    requires p < |strings| && x < 256 && strings[p] != [] && strings[p] + [x] !in strings
    ensures TableOf(table[Key(p, x) := |strings|], strings + [strings[p] + [x]])
    ensures PrefixClosed(strings + [strings[p] + [x]]) && Distinct(strings + [strings[p] + [x]])
  {
    AddString(strings, strings[p], x);
    SlotFilled(table, strings, p, x);
  }

  lemma SlotFilled(table: seq<int>, strings: seq<seq<nat>>, p: nat, x: nat)
    requires TableOf(table, strings) && Distinct(strings) && PrefixClosed(strings) && |strings| < MAX_CODES
    requires p < |strings| && x < 256 && strings[p] != [] && strings[p] + [x] !in strings
    ensures TableOf(table[Key(p, x) := |strings|], strings + [strings[p] + [x]])
  {
    var strings', table' := strings + [strings[p] + [x]], table[Key(p, x) := |strings|];
    forall q: nat, y: nat | q < |strings'| && q < 4096 && y < 256 && strings'[q] != []
      ensures if table'[Key(q, y)] >= 0 then strings'[table'[Key(q, y)]] == strings'[q] + [y]
              else strings'[q] + [y] !in strings'
    {
      ExtensionKnown(strings, p, x, q, y);
    }
  }

  /** Once s = strings[p] + [x] has a code, the extension of code q by y has one iff it had, or is s itself. */
  lemma ExtensionKnown(strings: seq<seq<nat>>, p: nat, x: nat, q: nat, y: nat)
    requires PrefixClosed(strings) && p < |strings| && q <= |strings|
    requires Distinct(strings)
    requires strings[p] != [] && strings[p] + [x] !in strings
    ensures var s := strings[p] + [x]; var t := (strings + [s])[q] + [y];
      && (q == |strings| ==> t !in strings + [s])
      && (q < |strings| && strings[q] != [] ==>
            (t == s <==> q == p && y == x) && (t in strings + [s] <==> t in strings || t == s))
  {
    var s := strings[p] + [x];
    var t := (strings + [s])[q] + [y];
    assert s[..|s| - 1] == strings[p] && s[|s| - 1] == x;
    assert t[..|t| - 1] == (strings + [s])[q] && t[|t| - 1] == y;
    if t in strings {
      var c :| 0 <= c < |strings| && strings[c] == t;
      assert strings[c][..|strings[c]| - 1] in strings;
    }
  }

  method ResetTable(table: array<int>)
    modifies table
    ensures forall k :: 0 <= k < table.Length ==> table[k] == -1
  {
    forall k | 0 <= k < table.Length {
      table[k] := -1;
    }
  }

  // ── The image data on the wire ─────────────────────────────────────────────

  /** An empty stream has no first index; what is emitted for it is code 0. */
  ghost function Coded(indices: seq<nat>): seq<nat> {
    if indices == [] then [0] else indices
  }

  function PadLength(bits: nat): (n: nat)
    ensures n == 0 <==> bits % 8 == 0
  {
    (8 - bits % 8) % 8
  }

  /** Zero bits up to the next byte boundary. */
  ghost function PadToByte(bits: Bits): Bits {
    bits + Zeros(PadLength(|bits|))
  }

  ghost function CompressedBits(minCodeSize: nat, indices: seq<nat>): Bits
    requires Representable(minCodeSize, indices)
  {
    CodedRepresentable(minCodeSize, indices);
    PadToByte(CodeBits(AllCodes(minCodeSize, Coded(indices))))
  }

  lemma CodedRepresentable(minCodeSize: nat, indices: seq<nat>)
    requires Representable(minCodeSize, indices)
    ensures Representable(minCodeSize, Coded(indices))
  {
  }

  /** Data sub-blocks of at most 255 bytes, then the terminator. */
  ghost function Blocks(raw: seq<Byte>): seq<Byte> {
    if raw == [] then [0]
    else
      var n := if |raw| < 255 then |raw| else 255;
      [n] + raw[..n] + Blocks(raw[n..])
  }

  /** bytes is the sub-blocked form of the compressed indices. */
  ghost predicate ImageData(minCodeSize: nat, indices: seq<nat>, bytes: seq<Byte>)
    requires Representable(minCodeSize, indices)
  {
    exists raw: seq<Byte> :: bytes == Blocks(raw) && BytesBits(raw) == CompressedBits(minCodeSize, indices)
  }

  lemma Regroup(a: seq<Byte>, b: seq<Byte>, c: seq<Byte>)
    ensures (a + b) + c == a + (b + c)
  {
  }

  lemma DeblockOne(size: Byte, chunk: seq<Byte>, tail: seq<Byte>)
    requires size == |chunk| > 0 && Deblock(tail).Some?
    ensures Deblock([size] + chunk + tail) == Some((chunk + Deblock(tail).value.0, Deblock(tail).value.1))
  {
  }

  lemma {:induction false} BlocksDeblock(raw: seq<Byte>, rest: seq<Byte>)
    ensures Deblock(Blocks(raw) + rest) == Some((raw, rest))
  {
    if raw == [] {
      assert (Blocks(raw) + rest)[1..] == rest;
    } else {
      var n := if |raw| < 255 then |raw| else 255;
      BlocksDeblock(raw[n..], rest);
      DeblockOne(n, raw[..n], Blocks(raw[n..]) + rest);
      Regroup([n] + raw[..n], Blocks(raw[n..]), rest);
      assert raw == raw[..n] + raw[n..];
    }
  }

  /** Any number of leading pixels can be read off the data. */
  ghost predicate PixelsRead(minCodeSize: nat, raw: seq<Byte>, indices: seq<nat>) {
    forall n: nat :: n <= |indices| ==> ReadPixels(minCodeSize, BytesBits(raw), n) == Some(indices[..n])
  }

  lemma CompressedReads(minCodeSize: nat, indices: seq<nat>, raw: seq<Byte>)
    requires Representable(minCodeSize, indices) && BytesBits(raw) == CompressedBits(minCodeSize, indices)
    ensures PixelsRead(minCodeSize, raw, indices)
  {
    forall n: nat | n <= |indices|
      ensures ReadPixels(minCodeSize, BytesBits(raw), n) == Some(indices[..n])
    {
      if indices != [] {
        var bits := CodeBits(AllCodes(minCodeSize, indices));
        PixelsRoundTrip(minCodeSize, indices, Zeros(PadLength(|bits|)), n);
      }
    }
  }

  /** Image data in a longer stream: its sub-blocks end where it ends, and any leading pixels come back. */
  lemma ImageDataReads(minCodeSize: nat, indices: seq<nat>, bytes: seq<Byte>, rest: seq<Byte>)
    requires Representable(minCodeSize, indices) && ImageData(minCodeSize, indices, bytes)
    ensures Deblock(bytes + rest).Some? && Deblock(bytes + rest).value.1 == rest
    ensures BytesBits(Deblock(bytes + rest).value.0) == CompressedBits(minCodeSize, indices)
    ensures PixelsRead(minCodeSize, Deblock(bytes + rest).value.0, indices)
  {
    var raw: seq<Byte> :| bytes == Blocks(raw) && BytesBits(raw) == CompressedBits(minCodeSize, indices);
    BlocksDeblock(raw, rest);
    CompressedReads(minCodeSize, indices, raw);
  }

  /**
   Whether a decoder reading on past the last pixel meets the end code, decided by the compressor's
   own variables when it writes that code.
   */
  lemma ImageDataEnds(minCodeSize: nat, indices: seq<nat>, bytes: seq<Byte>)
    requires indices != [] && Representable(minCodeSize, indices) && ImageData(minCodeSize, indices, bytes)
    ensures Deblock(bytes).Some?
    ensures EndsCleanly(minCodeSize, BytesBits(Deblock(bytes).value.0), |indices|)
       <==> !(EndCodeTooNarrow(EncodeFrom(minCodeSize, indices)) && |CodeBits(AllCodes(minCodeSize, indices))| % 8 == 0)
  {
    var raw: seq<Byte> :| bytes == Blocks(raw) && BytesBits(raw) == CompressedBits(minCodeSize, indices);
    BlocksDeblock(raw, []);
    assert Blocks(raw) + [] == Blocks(raw);
    EndCodeRead(minCodeSize, indices, PadLength(|CodeBits(AllCodes(minCodeSize, indices))|));
  }

  // ── The compressor ─────────────────────────────────────────────────────────

  /** The indices come back from the bytes, pixel by pixel, and the sub-blocks end with them. */
  method LzwCompress(indices: seq<Byte>, minCodeSize: nat) returns (out: seq<Byte>)
    requires Representable(minCodeSize, indices)
    ensures ImageData(minCodeSize, indices, out)
    ensures Deblock(out).Some? && Deblock(out).value.1 == []
    ensures PixelsRead(minCodeSize, Deblock(out).value.0, indices)
  {
    var packer := CompressToPacker(indices, minCodeSize);
    ghost var bits := packer.Emitted();
    packer.Flush();
    var raw := packer.raw;
    Padding(|bits|, |raw|);
    assert BytesBits(raw) == CompressedBits(minCodeSize, indices);
    out := ToBlocks(raw);
    ImageDataReads(minCodeSize, indices, out, []);
    assert out + [] == out;
  }

  lemma Padding(bits: nat, bytes: nat)
    requires bits <= 8 * bytes < bits + 8
    ensures 8 * bytes - bits == PadLength(bits)
  {
  }

  method ToBlocks(raw: seq<Byte>) returns (bytes: seq<Byte>)
    ensures bytes == Blocks(raw)
  {
    var out := new ByteWriter(|raw| + (|raw| + 254) / 255 + 1);
    var i := 0;
    while i < |raw|
      invariant 0 <= i <= |raw|
      invariant out.Valid() && fresh(out) && fresh(out.buf)
      invariant out.Contents + Blocks(raw[i..]) == Blocks(raw)
    {
      var end := if i + 255 < |raw| then i + 255 else |raw|;
      ghost var before := out.Contents;
      ToBlock(out, raw, i, end);
      NextBlock(raw, i, end);
      Regroup(before, [end - i] + raw[i..end], Blocks(raw[end..]));
      i := end;
    }
    out.Byte(0);
    bytes := out.Finish();
  }

  lemma NextBlock(raw: seq<Byte>, i: nat, end: nat)
    requires i < |raw| && end == if i + 255 < |raw| then i + 255 else |raw|
    ensures Blocks(raw[i..]) == ([end - i] + raw[i..end]) + Blocks(raw[end..])
  {
    assert raw[i..][..end - i] == raw[i..end] && raw[i..][end - i..] == raw[end..];
  }

  /** One sub-block: its size, then its bytes. */
  method ToBlock(out: ByteWriter, raw: seq<Byte>, i: nat, end: nat)
    requires out.Valid() && i < end <= |raw| && end - i < 256
    modifies out, out.buf
    ensures out.Valid() && (out.buf == old(out.buf) || fresh(out.buf))
    ensures out.Contents == old(out.Contents) + ([end - i] + raw[i..end])
  {
    out.Byte(end - i);
    for j := i to end
      invariant out.Valid() && (out.buf == old(out.buf) || fresh(out.buf))
      invariant out.Contents == old(out.Contents) + ([end - i] + raw[i..j])
    {
      out.Byte(raw[j]);
      assert raw[i..j + 1] == raw[i..j] + [raw[j]];
    }
  }

  /** The variables of the compressor agree with the textbook encoder. */
  ghost predicate Tracks(e: Encoder, codeSize: nat, nextCode: nat, prefix: nat, table: seq<int>, emitted: Bits) {
    && codeSize == e.codeSize && nextCode == |e.strings|
    && prefix < nextCode && e.strings[prefix] == e.cur != []
    && TableOf(table, e.strings) && PrefixClosed(e.strings) && Distinct(e.strings)
    && emitted == CodeBits(e.codes)
  }

  /** The loop body: one more index of the stream. */
  method CompressOne(packer: BitPacker, table: array<int>, minCodeSize: nat, codeSize0: nat, nextCode0: nat,
                     prefix0: nat, suffix: Byte, ghost e: Encoder)
    returns (codeSize: nat, nextCode: nat, prefix: nat)
    requires packer.Valid() && Sound(minCodeSize, e) && suffix < Pow2(minCodeSize)
    requires Tracks(e, codeSize0, nextCode0, prefix0, table[..], packer.Emitted())
    modifies packer, table
    ensures packer.Valid()
    ensures Tracks(Extend(minCodeSize, e, suffix), codeSize, nextCode, prefix, table[..], packer.Emitted())
  {
    codeSize, nextCode, prefix := codeSize0, nextCode0, prefix0;
    var found := table[Key(prefix, suffix)];
    FoundOrNew(minCodeSize, e, codeSize, nextCode, prefix, table[..], packer.Emitted(), suffix);
    if found >= 0 {
      prefix := found;
    } else {
      codeSize, nextCode := EmitNew(packer, table, minCodeSize, codeSize, nextCode, prefix, suffix, e);
      prefix := suffix;
    }
  }

  /** The loop body for a string without a code: its prefix goes out, and it gets the next code. */
  method EmitNew(packer: BitPacker, table: array<int>, minCodeSize: nat, codeSize0: nat, nextCode0: nat,
                 prefix: nat, suffix: Byte, ghost e: Encoder)
    returns (codeSize: nat, nextCode: nat)
    requires packer.Valid() && Sound(minCodeSize, e) && suffix < Pow2(minCodeSize)
    requires Tracks(e, codeSize0, nextCode0, prefix, table[..], packer.Emitted())
    requires e.cur + [suffix] !in e.strings && Emit(e).value == prefix
    modifies packer, table
    ensures packer.Valid()
    ensures Tracks(Extend(minCodeSize, e, suffix), codeSize, nextCode, suffix, table[..], packer.Emitted())
  {
    CodeFits(minCodeSize, e);
    packer.Emit(prefix, codeSize0);
    codeSize, nextCode := AddCode(table, Key(prefix, suffix), codeSize0, nextCode0);
    if nextCode >= 4096 {
      FullWidth(minCodeSize, e);
      ClearCodes(packer, table, minCodeSize, codeSize, suffix, e);
      codeSize, nextCode := minCodeSize + 1, Pow2(minCodeSize) + 2;
    } else {
      ExtendedAdd(minCodeSize, e, codeSize0, nextCode0, prefix, old(table[..]), old(packer.Emitted()), suffix);
    }
  }

  /** A full table: the clear code goes out, and every slot is emptied. */
  method ClearCodes(packer: BitPacker, table: array<int>, minCodeSize: nat, codeSize: nat, suffix: Byte,
                    ghost e: Encoder)
    requires packer.Valid() && Sound(minCodeSize, e) && suffix < Pow2(minCodeSize) && table.Length == TABLE_SIZE
    requires e.cur + [suffix] !in e.strings && |e.strings| + 1 == MAX_CODES && codeSize == e.codeSize == MAX_WIDTH
    requires packer.Emitted() == CodeBits(e.codes) + BitsOf(Emit(e).value, MAX_WIDTH)
    modifies packer, table
    ensures packer.Valid()
    ensures Tracks(Extend(minCodeSize, e, suffix), minCodeSize + 1, Pow2(minCodeSize) + 2, suffix, table[..],
                   packer.Emitted())
  {
    ClearFits(minCodeSize, e);
    packer.Emit(Pow2(minCodeSize), codeSize);
    ResetTable(table);
    ExtendedClear(minCodeSize, e, suffix, table[..]);
  }

  /** The next free code goes into a slot, if there is one left. */
  method AddCode(table: array<int>, slot: nat, codeSize0: nat, nextCode0: nat) returns (codeSize: nat, nextCode: nat)
    requires slot < table.Length
    modifies table
    ensures table[..] == if nextCode0 < 4096 then old(table[..])[slot := nextCode0] else old(table[..])
    ensures nextCode == if nextCode0 < 4096 then nextCode0 + 1 else nextCode0
    ensures codeSize
         == if nextCode0 < 4096 && nextCode > Pow2(codeSize0) && codeSize0 < 12 then codeSize0 + 1 else codeSize0
  {
    codeSize, nextCode := codeSize0, nextCode0;
    if nextCode < 4096 {
      table[slot] := nextCode;
      nextCode := nextCode + 1;
      if nextCode > Pow2(codeSize) && codeSize < 12 {
        codeSize := codeSize + 1;
      }
    }
  }

  /** What looking up the table slot decides. */
  lemma FoundOrNew(minCodeSize: nat, e: Encoder, codeSize: nat, nextCode: nat, prefix: nat, table: seq<int>,
                   emitted: Bits, x: Byte)
    requires Sound(minCodeSize, e) && Tracks(e, codeSize, nextCode, prefix, table, emitted)
    ensures Emit(e).value == prefix && -1 <= table[Key(prefix, x)] < nextCode
    ensures table[Key(prefix, x)] < 0 <==> e.cur + [x] !in e.strings
    ensures table[Key(prefix, x)] >= 0 ==>
      Tracks(Extend(minCodeSize, e, x), codeSize, nextCode, table[Key(prefix, x)], table, emitted)
  {
  }

  /** The state after an insertion that leaves room. */
  lemma ExtendedAdd(minCodeSize: nat, e: Encoder, codeSize: nat, nextCode: nat, prefix: nat, table: seq<int>,
                    emitted: Bits, x: Byte)
    requires Sound(minCodeSize, e) && Tracks(e, codeSize, nextCode, prefix, table, emitted)
    requires x < Pow2(minCodeSize) && e.cur + [x] !in e.strings && nextCode + 1 < MAX_CODES
    ensures Tracks(Extend(minCodeSize, e, x),
                   if nextCode + 1 > Pow2(codeSize) && codeSize < 12 then codeSize + 1 else codeSize,
                   nextCode + 1, x, table[Key(prefix, x) := nextCode], emitted + BitsOf(prefix, codeSize))
  {
    TableAdd(table, e.strings, prefix, x);
    ExtendedState(minCodeSize, e, x);
    assert Emit(e).value == prefix;
  }

  lemma ExtendedState(minCodeSize: nat, e: Encoder, x: Byte)
    requires Sound(minCodeSize, e) && x < Pow2(minCodeSize)
    requires e.cur + [x] !in e.strings && |e.strings| + 1 < MAX_CODES
    ensures var e' := Extend(minCodeSize, e, x);
      && e'.strings == e.strings + [e.cur + [x]] && e'.strings[x] == e'.cur == [x]
      && e'.codeSize == (if |e.strings| + 1 > Pow2(e.codeSize) && e.codeSize < 12 then e.codeSize + 1 else e.codeSize)
      && CodeBits(e'.codes) == CodeBits(e.codes) + BitsOf(Emit(e).value, e.codeSize)
  {
  }

  /** The state after the insertion that fills the table. */
  lemma ExtendedClear(minCodeSize: nat, e: Encoder, x: Byte, table: seq<int>)
    requires Sound(minCodeSize, e) && x < Pow2(minCodeSize) && Empty(table)
    requires e.cur + [x] !in e.strings && |e.strings| + 1 == MAX_CODES
    ensures var e' := Extend(minCodeSize, e, x);
      && e.codeSize == MAX_WIDTH
      && Tracks(e', minCodeSize + 1, Pow2(minCodeSize) + 2, x, table, CodeBits(e'.codes))
      && CodeBits(e'.codes)
      == CodeBits(e.codes) + BitsOf(Emit(e).value, MAX_WIDTH) + BitsOf(Pow2(minCodeSize), MAX_WIDTH)
  {
    FullWidth(minCodeSize, e);
    CodeBitsSnoc(e.codes, Emit(e));
    CodeBitsSnoc(e.codes + [Emit(e)], Code(ClearCode(minCodeSize), MAX_WIDTH));
    EmptyTable(table, minCodeSize);
    Root(minCodeSize, RootStrings(minCodeSize), x);
  }

  lemma CodeFits(minCodeSize: nat, e: Encoder)
    requires Sound(minCodeSize, e)
    ensures |e.strings| <= Pow2(e.codeSize)
  {
  }

  lemma ClearFits(minCodeSize: nat, e: Encoder)
    requires Sound(minCodeSize, e)
    ensures Pow2(minCodeSize) < Pow2(e.codeSize)
  {
    assert |RootStrings(minCodeSize)| <= |e.strings|;
  }

  /** A table about to be full is written at the greatest width. */
  lemma FullWidth(minCodeSize: nat, e: Encoder)
    requires Sound(minCodeSize, e) && |e.strings| + 1 == MAX_CODES
    ensures e.codeSize == MAX_WIDTH
  {
    Pow2Values();
    if e.codeSize < MAX_WIDTH {
      Pow2Grows(e.codeSize, 11);
    }
  }

  lemma StartTracks(minCodeSize: nat, first: nat, table: seq<int>)
    requires 2 <= minCodeSize <= 8 && first < Pow2(minCodeSize) && Empty(table)
    ensures Tracks(Start(minCodeSize, first), minCodeSize + 1, Pow2(minCodeSize) + 2, first, table,
                   BitsOf(Pow2(minCodeSize), minCodeSize + 1))
  {
    EmptyTable(table, minCodeSize);
    Root(minCodeSize, RootStrings(minCodeSize), first);
    CodeBitsSnoc([], Code(ClearCode(minCodeSize), minCodeSize + 1));
  }

  /** The textbook encoder after i indices. */
  ghost function After(minCodeSize: nat, indices: seq<nat>, i: nat): (e: Encoder)
    requires Representable(minCodeSize, indices) && 1 <= i <= |indices|
    ensures Sound(minCodeSize, e)
  {
    EncodeFrom(minCodeSize, indices[..i])
  }

  lemma AfterFirst(minCodeSize: nat, indices: seq<nat>)
    requires Representable(minCodeSize, indices) && indices != []
    ensures After(minCodeSize, indices, 1) == Start(minCodeSize, indices[0])
  {
  }

  lemma AfterNext(minCodeSize: nat, indices: seq<nat>, i: nat)
    requires Representable(minCodeSize, indices) && 1 <= i < |indices|
    ensures After(minCodeSize, indices, i + 1) == Extend(minCodeSize, After(minCodeSize, indices, i), indices[i])
  {
    assert indices[..i + 1] == indices[..i] + [indices[i]];
    EncodeSnoc(minCodeSize, indices[..i], indices[i]);
  }

  lemma LastCodes(minCodeSize: nat, indices: seq<nat>, prefix: nat)
    requires indices != [] && Representable(minCodeSize, indices)
    requires var e := After(minCodeSize, indices, |indices|);
      prefix < |e.strings| && e.strings[prefix] == e.cur && Distinct(e.strings)
    ensures var e := After(minCodeSize, indices, |indices|);
      && prefix < Pow2(e.codeSize) && EndCode(minCodeSize) < Pow2(e.codeSize)
      && CodeBits(AllCodes(minCodeSize, indices))
      == CodeBits(e.codes) + BitsOf(prefix, e.codeSize) + BitsOf(EndCode(minCodeSize), e.codeSize)
  {
    assert indices[..|indices|] == indices;
    var e := EncodeFrom(minCodeSize, indices);
    assert Emit(e).value == prefix;
    CodeFits(minCodeSize, e);
    RootsSound(minCodeSize);
    Pow2Grows(minCodeSize + 1, e.codeSize);
    CodeBitsSnoc(e.codes, Emit(e));
    CodeBitsSnoc(DataCodes(minCodeSize, indices), Code(EndCode(minCodeSize), e.codeSize));
  }

  /** Everything before the loop. */
  method Begin(packer: BitPacker, table: array<int>, minCodeSize: nat, prefix: nat)
    requires 2 <= minCodeSize <= 8 && prefix < Pow2(minCodeSize)
    requires packer.Valid() && packer.Emitted() == [] && table.Length == TABLE_SIZE
    modifies packer, table
    ensures packer.Valid()
    ensures Tracks(Start(minCodeSize, prefix), minCodeSize + 1, Pow2(minCodeSize) + 2, prefix, table[..],
                   packer.Emitted())
  {
    ResetTable(table);
    RootsSound(minCodeSize);
    packer.Emit(Pow2(minCodeSize), minCodeSize + 1);
    StartTracks(minCodeSize, prefix, table[..]);
  }

  method CompressToPacker(indices: seq<Byte>, minCodeSize: nat) returns (packer: BitPacker)
    requires Representable(minCodeSize, indices)
    ensures fresh(packer) && packer.Valid()
    ensures Representable(minCodeSize, Coded(indices))
    ensures packer.Emitted() == CodeBits(AllCodes(minCodeSize, Coded(indices)))
  {
    CodedRepresentable(minCodeSize, indices);
    if |indices| == 0 {
      packer := CompressStream([0], minCodeSize);
    } else {
      packer := CompressStream(indices, minCodeSize);
    }
  }

  method CompressStream(indices: seq<Byte>, minCodeSize: nat) returns (packer: BitPacker)
    requires indices != [] && Representable(minCodeSize, indices)
    ensures fresh(packer) && packer.Valid()
    ensures packer.Emitted() == CodeBits(AllCodes(minCodeSize, indices))
  {
    var table := new int[TABLE_SIZE];
    packer := new BitPacker();
    var codeSize: nat, nextCode: nat := minCodeSize + 1, Pow2(minCodeSize) + 2;
    var prefix: nat := indices[0];
    Begin(packer, table, minCodeSize, prefix);
    AfterFirst(minCodeSize, indices);
    ghost var e := After(minCodeSize, indices, 1);
    for i := 1 to |indices|
      invariant fresh(packer) && packer.Valid() && fresh(table)
      invariant e == After(minCodeSize, indices, i)
      invariant Tracks(e, codeSize, nextCode, prefix, table[..], packer.Emitted())
    {
      AfterNext(minCodeSize, indices, i);
      codeSize, nextCode, prefix := CompressOne(packer, table, minCodeSize, codeSize, nextCode, prefix, indices[i], e);
      e := After(minCodeSize, indices, i + 1);
    }
    End(packer, minCodeSize, codeSize, nextCode, prefix, table[..], indices, e);
  }

  /** The last data code and the end code. */
  method End(packer: BitPacker, minCodeSize: nat, codeSize: nat, ghost nextCode: nat, prefix: nat,
             ghost table: seq<int>, ghost coded: seq<nat>, ghost e: Encoder)
    requires packer.Valid() && coded != [] && Representable(minCodeSize, coded)
    requires e == After(minCodeSize, coded, |coded|)
    requires Tracks(e, codeSize, nextCode, prefix, table, packer.Emitted())
    modifies packer
    ensures packer.Valid() && packer.Emitted() == CodeBits(AllCodes(minCodeSize, coded))
  {
    LastCodes(minCodeSize, coded, prefix);
    packer.Emit(prefix, codeSize);
    packer.Emit(Pow2(minCodeSize) + 1, codeSize);
  }
}
