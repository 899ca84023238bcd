/** The LZW encoder as a textbook algorithm over strings, and its round trip through the decoder. */
module GifLzw {
  import opened GifBits
  import opened GifDecoder

  /** A code together with the width it is written at. */
  datatype Code = Code(value: nat, width: nat)

  /**
   strings lists what every code stands for, so |strings| is the next free code;
   cur is the string matched so far and not yet emitted.
   */
  datatype Encoder = Encoder(strings: seq<seq<nat>>, codeSize: nat, cur: seq<nat>, codes: seq<Code>)

  ghost predicate Representable(minCodeSize: nat, indices: seq<nat>) {
    2 <= minCodeSize <= 8 && forall i :: 0 <= i < |indices| ==> indices[i] < Pow2(minCodeSize)
  }

  ghost function CodeOf(strings: seq<seq<nat>>, s: seq<nat>): (c: nat)
    requires s in strings
    ensures c < |strings| && strings[c] == s
  {
    var c :| 0 <= c < |strings| && strings[c] == s;
    c
  }

  ghost function Start(minCodeSize: nat, first: nat): Encoder {
    Encoder(RootStrings(minCodeSize), minCodeSize + 1, [first], [Code(ClearCode(minCodeSize), minCodeSize + 1)])
  }

  /** The code emitted for the current string. */
  ghost function Emit(e: Encoder): Code
    requires e.cur in e.strings
  {
    Code(CodeOf(e.strings, e.cur), e.codeSize)
  }

  ghost function Extend(minCodeSize: nat, e: Encoder, x: nat): Encoder
    requires e.cur in e.strings
  {
    if e.cur + [x] in e.strings then
      e.(cur := e.cur + [x])
    else
      var codes := e.codes + [Emit(e)];
      var strings := if |e.strings| < MAX_CODES then e.strings + [e.cur + [x]] else e.strings;
      var codeSize := if |e.strings| < MAX_CODES && |strings| > Pow2(e.codeSize) && e.codeSize < MAX_WIDTH
                      then e.codeSize + 1 else e.codeSize;
      if |strings| >= MAX_CODES then
        Encoder(RootStrings(minCodeSize), minCodeSize + 1, [x], codes + [Code(ClearCode(minCodeSize), codeSize)])
      else
        Encoder(strings, codeSize, [x], codes)
  }

  /** Dense codes with distinct strings: the roots, then strings of two or more indices. */
  ghost predicate Distinct(strings: seq<seq<nat>>) {
    forall c, c' :: 0 <= c < c' < |strings| && strings[c] != [] ==> strings[c] != strings[c']
  }

  /** Every nonempty string has a code for all of it but its last index. */
  ghost predicate PrefixClosed(strings: seq<seq<nat>>) {
    forall c :: 0 <= c < |strings| && strings[c] != [] ==> strings[c][..|strings[c]| - 1] in strings
  }

  /** codeSize is the least width above minCodeSize, at most 12, that holds every code below n. */
  ghost predicate Width(minCodeSize: nat, codeSize: nat, n: nat) {
    && minCodeSize < codeSize <= MAX_WIDTH
    && n <= Pow2(codeSize)
    && (codeSize > minCodeSize + 1 ==> Pow2(codeSize - 1) < n)
  }

  /** What every prefix of a stream leaves the encoder in. */
  ghost predicate Sound(minCodeSize: nat, e: Encoder) {
    && 2 <= minCodeSize <= 8
    && RootStrings(minCodeSize) <= e.strings && |e.strings| < MAX_CODES
    && Width(minCodeSize, e.codeSize, |e.strings|)
    && e.cur in e.strings && e.cur != []
  }

  ghost function EncodeFrom(minCodeSize: nat, indices: seq<nat>): (e: Encoder)
    requires indices != [] && Representable(minCodeSize, indices)
    ensures Sound(minCodeSize, e)
  {
    if |indices| == 1 then
      StartSound(minCodeSize, indices[0]);
      Start(minCodeSize, indices[0])
    else
      var e := EncodeFrom(minCodeSize, indices[..|indices| - 1]);
      ExtendSound(minCodeSize, e, indices[|indices| - 1]);
      Extend(minCodeSize, e, indices[|indices| - 1])
  }

  lemma EncodeSnoc(minCodeSize: nat, before: seq<nat>, x: nat)
    requires before != [] && Representable(minCodeSize, before + [x])
    ensures Representable(minCodeSize, before)
    ensures EncodeFrom(minCodeSize, before + [x]) == Extend(minCodeSize, EncodeFrom(minCodeSize, before), x)
  {
    var all := before + [x];
    assert all[..|all| - 1] == before;
    forall i | 0 <= i < |before|
      ensures before[i] < Pow2(minCodeSize)
    {
      assert all[i] == before[i];
    }
  }

  lemma StartSound(minCodeSize: nat, first: nat)
    requires 2 <= minCodeSize <= 8 && first < Pow2(minCodeSize)
    ensures Sound(minCodeSize, Start(minCodeSize, first))
  {
    RootsSound(minCodeSize);
    Root(minCodeSize, RootStrings(minCodeSize), first);
    SoundFrom(minCodeSize, Start(minCodeSize, first));
  }

  lemma SoundFrom(minCodeSize: nat, e: Encoder)
    requires 2 <= minCodeSize <= 8 && RootStrings(minCodeSize) <= e.strings && |e.strings| < MAX_CODES
    requires Width(minCodeSize, e.codeSize, |e.strings|) && e.cur in e.strings && e.cur != []
    ensures Sound(minCodeSize, e)
  {
  }

  lemma Root(minCodeSize: nat, strings: seq<seq<nat>>, x: nat)
    requires RootStrings(minCodeSize) <= strings && x < Pow2(minCodeSize)
    ensures x < |strings| && strings[x] == [x] && [x] in strings
  {
  }

  lemma RootsSound(minCodeSize: nat)
    requires 2 <= minCodeSize <= 8
    ensures |RootStrings(minCodeSize)| < MAX_CODES
    ensures Width(minCodeSize, minCodeSize + 1, |RootStrings(minCodeSize)|)
    ensures Pow2(minCodeSize) + 2 < Pow2(minCodeSize + 1)
  {
    Pow2Values();
    assert Pow2(minCodeSize + 1) == 2 * Pow2(minCodeSize);
    assert 4 <= Pow2(minCodeSize) <= 256;
  }

  lemma WidthGrows(minCodeSize: nat, codeSize: nat, n: nat)
    requires Width(minCodeSize, codeSize, n) && n < MAX_CODES
    ensures Width(minCodeSize, if n + 1 > Pow2(codeSize) && codeSize < MAX_WIDTH then codeSize + 1 else codeSize, n + 1)
  {
    Pow2Values();
    assert Pow2(codeSize + 1) == 2 * Pow2(codeSize);
  }

  lemma LongerPrefix(a: seq<seq<nat>>, b: seq<seq<nat>>, more: seq<seq<nat>>)
    requires a <= b
    ensures a <= b + more
  {
  }

  /** A new string while there is room. */
  lemma AddSound(minCodeSize: nat, e: Encoder, x: nat)
    requires Sound(minCodeSize, e) && x < Pow2(minCodeSize)
    requires e.cur + [x] !in e.strings && |e.strings| + 1 < MAX_CODES
    ensures Sound(minCodeSize, Extend(minCodeSize, e, x))
  {
    var strings := e.strings + [e.cur + [x]];
    WidthGrows(minCodeSize, e.codeSize, |e.strings|);
    LongerPrefix(RootStrings(minCodeSize), e.strings, [e.cur + [x]]);
    Root(minCodeSize, strings, x);
    SoundFrom(minCodeSize, Extend(minCodeSize, e, x));
  }

  /** The string that fills the table: back to the roots. */
  lemma ClearSound(minCodeSize: nat, e: Encoder, x: nat)
    requires 2 <= minCodeSize <= 8 && x < Pow2(minCodeSize)
    requires e.cur in e.strings && e.cur + [x] !in e.strings && |e.strings| + 1 >= MAX_CODES
    ensures Sound(minCodeSize, Extend(minCodeSize, e, x))
  {
    StartSound(minCodeSize, x);
    SoundApartFromCodes(minCodeSize, Start(minCodeSize, x), Extend(minCodeSize, e, x).codes);
    assert Extend(minCodeSize, e, x) == Start(minCodeSize, x).(codes := Extend(minCodeSize, e, x).codes);
  }

  lemma SoundApartFromCodes(minCodeSize: nat, e: Encoder, codes: seq<Code>)
    requires Sound(minCodeSize, e)
    ensures Sound(minCodeSize, e.(codes := codes))
  {
  }

  lemma ExtendSound(minCodeSize: nat, e: Encoder, x: nat)
    requires Sound(minCodeSize, e) && x < Pow2(minCodeSize)
    ensures Sound(minCodeSize, Extend(minCodeSize, e, x))
  {
    if e.cur + [x] in e.strings {
      assert Extend(minCodeSize, e, x) == e.(cur := e.cur + [x]);
    } else if |e.strings| + 1 < MAX_CODES {
      AddSound(minCodeSize, e, x);
    } else {
      ClearSound(minCodeSize, e, x);
    }
  }

  // ── The strings of the codes ───────────────────────────────────────────────

  lemma AddString(strings: seq<seq<nat>>, cur: seq<nat>, x: nat)
    requires Distinct(strings) && PrefixClosed(strings) && cur in strings && cur + [x] !in strings
    ensures Distinct(strings + [cur + [x]]) && PrefixClosed(strings + [cur + [x]])
  {
    assert (cur + [x])[..|cur|] == cur;
  }

  lemma RootsDistinct(minCodeSize: nat)
    ensures Distinct(RootStrings(minCodeSize)) && PrefixClosed(RootStrings(minCodeSize))
  {
    var roots := RootStrings(minCodeSize);
    assert roots[ClearCode(minCodeSize)] == [];
    forall c | 0 <= c < |roots| && roots[c] != []
      ensures roots[c][..|roots[c]| - 1] in roots
    {
      assert roots[c][..0] == [];
    }
  }

  /** No two codes stand for one string, and a string's longest proper prefix has a code, after any stream. */
  lemma {:induction false} CodesDistinct(minCodeSize: nat, indices: seq<nat>)
    requires indices != [] && Representable(minCodeSize, indices)
    ensures Distinct(EncodeFrom(minCodeSize, indices).strings)
    ensures PrefixClosed(EncodeFrom(minCodeSize, indices).strings)
  {
    RootsDistinct(minCodeSize);
    if |indices| > 1 {
      var before, x := indices[..|indices| - 1], indices[|indices| - 1];
      CodesDistinct(minCodeSize, before);
      var e := EncodeFrom(minCodeSize, before);
      if e.cur + [x] !in e.strings {
        AddString(e.strings, e.cur, x);
      }
    }
  }
}
