/**
 A reader of whole GIF89a files: header and logical screen (sections 17 and 18), colour
 tables (19 and 21), image descriptor and data (20 and 22), graphic control extension (23),
 application extension (26) and trailer (27). Reserved bits must be 0, and so must
 the bits on a local colour table where there is none. Nothing here looks at the writer.
 */
module GifReader {
  import opened GifBits
  import opened GifByteWriter
  import opened GifDecoder
  import opened GifPalette
  import opened Options

  /** What a graphic control extension says of the next image. */
  datatype Control = Control(delay: nat, disposal: nat, userInput: bool, transparent: Option<nat>)

  /** An image without one. */
  const NO_CONTROL := Control(0, 0, false, None)

  /** ended: having its pixels, the decoder next reads the end-of-information code. */
  datatype Image = Image(control: Control, left: nat, top: nat, width: nat, height: nat, interlaced: bool,
                         colors: seq<Rgb>, indices: seq<nat>, ended: bool)

  /** The logical screen: depth is the colour resolution in bits, background a palette index, aspect the raw byte. */
  datatype Screen = Screen(width: nat, height: nat, depth: nat, sorted: bool, background: nat, aspect: nat)

  /** loops is the Netscape loop count, 0 for ever. */
  datatype Gif = Gif(screen: Screen, colors: seq<Rgb>, loops: Option<nat>, images: seq<Image>)

  /** What pixel i shows: nothing where the index is transparent or has no colour. */
  function ShownAt(image: Image, i: nat): Option<Rgb>
    requires i < |image.indices|
  {
    var index := image.indices[i];
    if image.control.transparent == Some(index) || index >= |image.colors| then None else Some(image.colors[index])
  }

  function Word(lo: Byte, hi: Byte): nat {
    lo as int + 256 * hi as int
  }

  function ColorTable(bytes: seq<Byte>, n: nat): (t: seq<Rgb>)
    requires |bytes| >= 3 * n
    ensures |t| == n
  {
    seq(n, i requires 0 <= i < n => Rgb(bytes[3 * i], bytes[3 * i + 1], bytes[3 * i + 2]))
  }

  /** Entries of the colour table a packed-fields byte announces. */
  function TableEntries(packed: Byte): nat {
    if packed >= 128 then Pow2(packed % 8 + 1) else 0
  }

  function ReadGif(bytes: seq<Byte>): Option<Gif> {
    if |bytes| < 13 || bytes[..6] != Ascii("GIF89a") then None
    else
      var n := TableEntries(bytes[10]);
      if |bytes| < 13 + 3 * n then None
      else
        ReadBlocks(bytes[13 + 3 * n..], Gif(ReadScreen(bytes[6..13]), ColorTable(bytes[13..], n), None, []), NO_CONTROL)
  }

  function ReadScreen(bytes: seq<Byte>): Screen
    requires |bytes| == 7
  {
    Screen(Word(bytes[0], bytes[1]), Word(bytes[2], bytes[3]), bytes[4] / 16 % 8 + 1, bytes[4] / 8 % 2 == 1,
           bytes[5], bytes[6])
  }

  /** The packed fields, the delay and the transparent colour index. */
  function ReadControlData(data: seq<Byte>): Control
    requires |data| == 4
  {
    Control(Word(data[1], data[2]), data[0] / 4 % 8, data[0] / 2 % 2 == 1,
            if data[0] % 2 == 1 then Some(data[3]) else None)
  }

  /** The blocks after the global colour table; control is what the last control extension said. */
  function ReadBlocks(bytes: seq<Byte>, gif: Gif, control: Control): Option<Gif>
    decreases |bytes|
  {
    if bytes == [] then None
    else if bytes[0] == 0x3b then Some(gif)
    else if bytes[0] == 0x21 && |bytes| >= 2 then
      match Deblock(bytes[2..])
      case None => None
      case Some((data, rest)) =>
        if bytes[1] == 0xf9 then
          if |data| == 4 && data[0] < 32 then ReadBlocks(rest, gif, ReadControlData(data)) else None
        else if bytes[1] == 0xff && |data| == 14 && data[..11] == Ascii("NETSCAPE2.0") && data[11] == 1 then
          ReadBlocks(rest, gif.(loops := Some(Word(data[12], data[13]))), control)
        else
          ReadBlocks(rest, gif, control)
    else if bytes[0] == 0x2c && |bytes| >= 10 then
      match ReadImage(bytes, gif.colors, control)
      case None => None
      case Some((image, rest)) =>
        if |rest| >= |bytes| then None
        else ReadBlocks(rest, gif.(images := gif.images + [image]), NO_CONTROL)
    else None
  }

  /** An image descriptor, its local colour table if any, and its pixels. */
  function ReadImage(bytes: seq<Byte>, colors: seq<Rgb>, control: Control): Option<(Image, seq<Byte>)>
    requires |bytes| >= 10
  {
    var n := TableEntries(bytes[9]);
    if |bytes| < 11 + 3 * n || bytes[9] / 8 % 4 != 0 || (n == 0 && bytes[9] % 64 != 0) then None
    else
      var minCodeSize: nat := bytes[10 + 3 * n];
      if minCodeSize < 2 || minCodeSize > 8 then None
      else
        match Deblock(bytes[11 + 3 * n..])
        case None => None
        case Some((data, rest)) =>
          var w, h := Word(bytes[5], bytes[6]), Word(bytes[7], bytes[8]);
          match ReadPixels(minCodeSize, BytesBits(data), w * h)
          case None => None
          case Some(indices) =>
            Some((Image(control, Word(bytes[1], bytes[2]), Word(bytes[3], bytes[4]), w, h, bytes[9] / 64 % 2 == 1,
                        if n > 0 then ColorTable(bytes[10..], n) else colors, indices,
                        EndsCleanly(minCodeSize, BytesBits(data), w * h)), rest))
  }
}
