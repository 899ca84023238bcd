/**
 The reference decoder: the variable-length-code LZW decompressor of Appendix F of
 GIF89a, the data sub-blocks of section 15 and the block terminator of section 16.
 Nothing here looks at the encoder.
 */
module GifDecoder {
  import opened GifBits
  import opened Options

  const MAX_CODES: nat := 4096
  const MAX_WIDTH: nat := 12

  function ClearCode(minCodeSize: nat): nat { Pow2(minCodeSize) }

  function EndCode(minCodeSize: nat): nat { Pow2(minCodeSize) + 1 }

  /** The strings known right after a clear: one per root, none for the two control codes. */
  function RootStrings(minCodeSize: nat): (t: seq<seq<nat>>)
    ensures |t| == Pow2(minCodeSize) + 2
    ensures forall c :: 0 <= c < Pow2(minCodeSize) ==> t[c] == [c]
    ensures t[ClearCode(minCodeSize)] == [] && t[EndCode(minCodeSize)] == []
  {
    seq(Pow2(minCodeSize) + 2, i requires i >= 0 => if i < Pow2(minCodeSize) then [i] else [])
  }

  /** prev is the string of the last code read, empty right after a clear. */
  datatype Decoder = Decoder(table: seq<seq<nat>>, width: nat, prev: seq<nat>, out: seq<nat>)

  function Fresh(minCodeSize: nat, out: seq<nat>): Decoder {
    Decoder(RootStrings(minCodeSize), minCodeSize + 1, [], out)
  }

  /** The string a data code stands for, if the stream is well formed. */
  function StringOf(minCodeSize: nat, d: Decoder, code: nat): Option<seq<nat>> {
    if d.prev == [] then
      if code < ClearCode(minCodeSize) then Some([code]) else None
    else if code < |d.table| then
      if d.table[code] != [] then Some(d.table[code]) else None
    else if code == |d.table| then
      Some(d.prev + [d.prev[0]])
    else
      None
  }

  /** One clear or data code. The table entry for the previous string is completed only now. */
  function Step(minCodeSize: nat, d: Decoder, code: nat): (r: Option<Decoder>)
    ensures r.Some? ==> d.out <= r.value.out && (d.width > 0 ==> r.value.width > 0)
  {
    if code == ClearCode(minCodeSize) then
      Some(Fresh(minCodeSize, d.out))
    else
      match StringOf(minCodeSize, d, code)
      case None => None
      case Some(s) =>
        if s == [] then None
        else if d.prev == [] || |d.table| >= MAX_CODES then
          Some(d.(prev := s, out := d.out + s))
        else
          var table := d.table + [d.prev + [s[0]]];
          var width := if |table| == Pow2(d.width) && d.width < MAX_WIDTH then d.width + 1 else d.width;
          Some(Decoder(table, width, s, d.out + s))
  }

  /** Reads codes off the bit stream until at least n pixels are known; returns what is left. */
  function Read(minCodeSize: nat, d: Decoder, bits: Bits, n: nat): Option<(Decoder, Bits)>
    decreases |bits|
  {
    if |d.out| >= n then Some((d, bits))
    else if d.width == 0 || |bits| < d.width then None
    else
      match Step(minCodeSize, d, Value(bits[..d.width]))
      case None => None
      case Some(d') => Read(minCodeSize, d', bits[d.width..], n)
  }

  /** The first n pixels of an image. */
  function ReadPixels(minCodeSize: nat, bits: Bits, n: nat): Option<seq<nat>> {
    match Read(minCodeSize, Fresh(minCodeSize, []), bits, n)
    case None => None
    case Some((d, rest)) => if |d.out| >= n then Some(d.out[..n]) else None
  }

  /** Whether the decoder, having its n pixels, next reads the end-of-information code. */
  predicate EndsCleanly(minCodeSize: nat, bits: Bits, n: nat) {
    match Read(minCodeSize, Fresh(minCodeSize, []), bits, n)
    case None => false
    case Some((d, rest)) => |rest| >= d.width && Value(rest[..d.width]) == EndCode(minCodeSize)
  }

  /** Joins data sub-blocks up to the terminator; returns the data and what follows. */
  function Deblock(bytes: seq<Byte>): (r: Option<(seq<Byte>, seq<Byte>)>)
    ensures r.Some? ==> |r.value.1| < |bytes|
    decreases |bytes|
  {
    if bytes == [] then None
    else
      var size: nat := bytes[0];
      if size == 0 then Some(([], bytes[1..]))
      else if |bytes| < 1 + size then None
      else
        match Deblock(bytes[1 + size..])
        case None => None
        case Some((data, rest)) => Some((bytes[1..1 + size] + data, rest))
  }
}
