/** The bytes of a whole animated GIF, and their reading back. */
module GifFile {
  import opened GifBits
  import opened GifByteWriter
  import opened GifCompress
  import opened GifDecoder
  import opened GifLzw
  import opened GifLzwEndCode
  import opened GifLzwRoundTrip
  import opened GifPalette
  import opened GifQuantize
  import opened GifReader
  import opened Options

  function PaletteBytes(palette: seq<Rgb>): (b: seq<Byte>)
    ensures |b| == 3 * |palette|
  {
    if palette == [] then []
    else
      var c := palette[|palette| - 1];
      PaletteBytes(palette[..|palette| - 1]) + [c.r, c.g, c.b]
  }

  ghost function ScreenBytes(width: nat, height: nat): (b: seq<Byte>)
    ensures |b| == 13
  {
    Ascii("GIF89a") + Le16(width) + Le16(height) + [0xf7, 0, 0]
  }

  ghost function HeadBytes(width: nat, height: nat, palette: Palette): seq<Byte> {
    ScreenBytes(width, height) + PaletteBytes(palette)
  }

  ghost function LoopBytes(): seq<Byte> {
    [0x21, 0xff, 11] + Ascii("NETSCAPE") + Ascii("2.0") + [3, 1] + Le16(0) + [0]
  }

  ghost function ControlBytes(delay: nat): seq<Byte> {
    [0x21, 0xf9, 4, 0x08] + Le16(delay) + [0, 0]
  }

  ghost function PlaceBytes(): (b: seq<Byte>)
    ensures |b| == 5
  {
    [0x2c] + Le16(0) + Le16(0)
  }

  ghost function DescriptorBytes(width: nat, height: nat): (b: seq<Byte>)
    ensures |b| == 11 && b[0] == 0x2c
  {
    PlaceBytes() + (Le16(width) + Le16(height) + [0, MIN_CODE])
  }

  ghost function FrameBytes(width: nat, height: nat, delay: nat, data: seq<Byte>): seq<Byte> {
    ControlBytes(delay) + (DescriptorBytes(width, height) + data)
  }

  ghost function FramesBytes(width: nat, height: nat, frames: seq<Frame>, datas: seq<seq<Byte>>): seq<Byte>
    requires |frames| == |datas|
  {
    if frames == [] then []
    else FrameBytes(width, height, frames[0].delayCs, datas[0]) + FramesBytes(width, height, frames[1..], datas[1..])
  }

  // ── Reading the pieces back ────────────────────────────────────────────────

  /** Sixteen bits survive. */
  lemma WordOfLe16(n: nat)
    ensures Word(Le16(n)[0], Le16(n)[1]) == n % 65536
  {
  }

  lemma {:induction false} TableOfPalette(palette: seq<Rgb>, rest: seq<Byte>)
    ensures ColorTable(PaletteBytes(palette) + rest, |palette|) == palette
  {
    var table := ColorTable(PaletteBytes(palette) + rest, |palette|);
    if palette != [] {
      var n, c := |palette| - 1, palette[|palette| - 1];
      TableOfPalette(palette[..n], [c.r, c.g, c.b] + rest);
      assert PaletteBytes(palette) + rest == PaletteBytes(palette[..n]) + ([c.r, c.g, c.b] + rest);
      assert table == ColorTable(PaletteBytes(palette[..n]) + ([c.r, c.g, c.b] + rest), n) + [c];
    }
  }

  /** What the screen descriptor says: eight bits a colour, nothing sorted, background and aspect 0. */
  function ScreenOf(width: nat, height: nat): Screen {
    Screen(width % 65536, height % 65536, 8, false, 0, 0)
  }

  /** What a control block says: disposal 2, no user input, nothing transparent. */
  function ControlOf(delay: nat): Control {
    Control(delay % 65536, 2, false, None)
  }

  ghost function ScreenDescriptor(width: nat, height: nat): (b: seq<Byte>)
    ensures |b| == 7
  {
    Le16(width) + Le16(height) + [0xf7, 0, 0]
  }

  lemma ScreenMeans(width: nat, height: nat)
    ensures ReadScreen(ScreenDescriptor(width, height)) == ScreenOf(width, height)
    ensures TableEntries(ScreenDescriptor(width, height)[4]) == 256
  {
    Pow2Values();
    WordOfLe16(width);
    WordOfLe16(height);
  }

  lemma HeadParts(width: nat, height: nat, palette: Palette, rest: seq<Byte>)
    ensures var bytes := HeadBytes(width, height, palette) + rest;
      && |bytes| >= 13 + 3 * 256 && bytes[..6] == Ascii("GIF89a") && bytes[6..13] == ScreenDescriptor(width, height)
      && bytes[13..] == PaletteBytes(palette) + rest && bytes[13 + 3 * 256..] == rest
  {
  }

  lemma ReadHead(width: nat, height: nat, palette: Palette, rest: seq<Byte>)
    ensures ReadGif(HeadBytes(width, height, palette) + rest)
         == ReadBlocks(rest, Gif(ScreenOf(width, height), palette, None, []), NO_CONTROL)
  {
    var bytes := HeadBytes(width, height, palette) + rest;
    HeadParts(width, height, palette, rest);
    ScreenMeans(width, height);
    assert bytes[10] == bytes[6..13][4];
    TableOfPalette(palette, rest);
  }

  lemma LoopParts(rest: seq<Byte>)
    ensures var bytes := LoopBytes() + rest;
      && bytes[0] == 0x21 && bytes[1] == 0xff
      && bytes[2..] == [11] + Ascii("NETSCAPE2.0") + ([3] + [1, 0, 0] + ([0] + rest))
  {
    assert Ascii("NETSCAPE") + Ascii("2.0") == Ascii("NETSCAPE2.0");
  }

  lemma LoopData(name: seq<Byte>, count: seq<Byte>, rest: seq<Byte>)
    requires |name| == 11 && |count| == 3
    ensures Deblock([11] + name + ([3] + count + ([0] + rest))) == Some((name + count, rest))
  {
    DeblockOne(3, count, [0] + rest);
    assert ([0] + rest)[1..] == rest;
    DeblockOne(11, name, [3] + count + ([0] + rest));
    assert count + [] == count;
  }

  lemma ReadLoop(rest: seq<Byte>, gif: Gif)
    ensures ReadBlocks(LoopBytes() + rest, gif, NO_CONTROL) == ReadBlocks(rest, gif.(loops := Some(0)), NO_CONTROL)
  {
    var name, count: seq<Byte> := Ascii("NETSCAPE2.0"), [1, 0, 0];
    LoopParts(rest);
    LoopData(name, count, rest);
    assert (name + count)[..11] == name;
  }

  ghost function ControlData(delay: nat): (d: seq<Byte>)
    ensures |d| == 4
  {
    [0x08] + Le16(delay) + [0]
  }

  lemma ControlDataMeans(delay: nat)
    ensures ControlData(delay)[0] < 32 && ReadControlData(ControlData(delay)) == ControlOf(delay)
  {
    WordOfLe16(delay);
  }

  lemma ControlParts(delay: nat, rest: seq<Byte>)
    ensures var bytes := ControlBytes(delay) + rest;
      bytes[0] == 0x21 && bytes[1] == 0xf9 && Deblock(bytes[2..]) == Some((ControlData(delay), rest))
  {
    DeblockOne(4, ControlData(delay), [0] + rest);
    assert ([0] + rest)[1..] == rest;
    assert (ControlBytes(delay) + rest)[2..] == [4] + ControlData(delay) + ([0] + rest);
    assert ControlData(delay) + [] == ControlData(delay);
  }

  lemma ReadControl(delay: nat, rest: seq<Byte>, gif: Gif, control0: Control)
    ensures ReadBlocks(ControlBytes(delay) + rest, gif, control0) == ReadBlocks(rest, gif, ControlOf(delay))
  {
    ControlParts(delay, rest);
    ControlDataMeans(delay);
  }

  /** An index for every pixel of the area, and perhaps more. */
  ghost predicate Fills(area: nat, stream: seq<nat>) {
    |stream| >= area && Representable(MIN_CODE, stream)
  }

  lemma AreaShrinks(w: nat, h: nat, width: nat, height: nat)
    requires w <= width && h <= height
    ensures w * h <= width * height
  {
  }

  /** Pixels of an image whose size is written in sixteen bits. */
  function ShownArea(width: nat, height: nat): (n: nat)
    ensures n <= width * height
    ensures width < 65536 && height < 65536 ==> n == width * height
  {
    AreaShrinks(width % 65536, height % 65536, width, height);
    (width % 65536) * (height % 65536)
  }

  /** The image a frame's index stream becomes: as many of its pixels as the 16-bit size says. */
  ghost function ImageOf(width: nat, height: nat, delay: nat, palette: Palette, stream: seq<nat>): (image: Image)
    requires Fills(width * height, stream)
    ensures |image.indices| == ShownArea(width, height) <= |stream|
    ensures image.indices == stream[..|image.indices|]
  {
    var n := ShownArea(width, height);
    Image(ControlOf(delay), 0, 0, width % 65536, height % 65536, false, palette, stream[..n], EndedAt(stream, n))
  }

  ghost predicate EndedAt(stream: seq<nat>, n: nat)
    requires Representable(MIN_CODE, stream)
  {
    EndsCleanly(MIN_CODE, CompressedBits(MIN_CODE, stream), n)
  }

  /** A full-size image is followed by its end code except in the cases of GifLzwEndCode. */
  lemma EndsUnlessLost(width: nat, height: nat, delay: nat, palette: Palette, stream: seq<nat>)
    requires Fills(width * height, stream) && |stream| == width * height > 0 && width < 65536 && height < 65536
    ensures ImageOf(width, height, delay, palette, stream).indices == stream
    ensures ImageOf(width, height, delay, palette, stream).ended <==> !LosesEnd(EncodeFrom(MIN_CODE, stream))
  {
    assert stream[..|stream|] == stream;
    CompressedEnds(stream);
  }

  lemma CompressedEnds(stream: seq<nat>)
    requires stream != [] && Representable(MIN_CODE, stream)
    ensures EndedAt(stream, |stream|) <==> !LosesEnd(EncodeFrom(MIN_CODE, stream))
  {
    EndCodeRead(MIN_CODE, stream, PadLength(|CodeBits(AllCodes(MIN_CODE, stream))|));
    LostIff(stream);
  }

  lemma ReadFrame(width: nat, height: nat, delay: nat, stream: seq<nat>, data: seq<Byte>, rest: seq<Byte>,
                  gif: Gif, palette: Palette)
    requires Fills(width * height, stream) && ImageData(MIN_CODE, stream, data)
    requires gif.colors == palette
    ensures ReadBlocks(FrameBytes(width, height, delay, data) + rest, gif, NO_CONTROL)
         == ReadBlocks(rest, gif.(images := gif.images + [ImageOf(width, height, delay, palette, stream)]), NO_CONTROL)
  {
    var body := data + rest;
    var image := DescriptorBytes(width, height) + body;
    Regroup(ControlBytes(delay), DescriptorBytes(width, height) + data, rest);
    Regroup(DescriptorBytes(width, height), data, rest);
    ReadControl(delay, image, gif, NO_CONTROL);
    var n := |ImageOf(width, height, delay, palette, stream).indices|;
    PixelsOf(n, stream, data, rest);
    ReadDescriptor(width, height, ControlOf(delay), stream[..n], body, rest, palette,
                   CompressedBits(MIN_CODE, stream));
    ReadImageBlock(image, gif, ControlOf(delay), rest);
  }

  lemma ReadImageBlock(bytes: seq<Byte>, gif: Gif, control: Control, rest: seq<Byte>)
    requires |bytes| >= 10 && bytes[0] == 0x2c && |rest| < |bytes|
    requires ReadImage(bytes, gif.colors, control).Some? && ReadImage(bytes, gif.colors, control).value.1 == rest
    ensures ReadBlocks(bytes, gif, control)
         == ReadBlocks(rest, gif.(images := gif.images + [ReadImage(bytes, gif.colors, control).value.0]), NO_CONTROL)
  {
  }

  lemma PixelsOf(n: nat, stream: seq<nat>, data: seq<Byte>, rest: seq<Byte>)
    requires Representable(MIN_CODE, stream) && ImageData(MIN_CODE, stream, data) && n <= |stream|
    ensures Deblock(data + rest).Some? && Deblock(data + rest).value.1 == rest
    ensures BytesBits(Deblock(data + rest).value.0) == CompressedBits(MIN_CODE, stream)
    ensures ReadPixels(MIN_CODE, CompressedBits(MIN_CODE, stream), n) == Some(stream[..n])
  {
    ImageDataReads(MIN_CODE, stream, data, rest);
  }

  lemma ReadDescriptor(width: nat, height: nat, control: Control, pixels: seq<nat>, body: seq<Byte>, rest: seq<Byte>,
                       colors: seq<Rgb>, bits: Bits)
    requires Deblock(body).Some? && Deblock(body).value.1 == rest && BytesBits(Deblock(body).value.0) == bits
    requires ReadPixels(MIN_CODE, bits, ShownArea(width, height)) == Some(pixels)
    ensures ReadImage(DescriptorBytes(width, height) + body, colors, control)
         == Some((Image(control, 0, 0, width % 65536, height % 65536, false, colors, pixels,
                        EndsCleanly(MIN_CODE, bits, ShownArea(width, height))), rest))
  {
    DescriptorFields(width, height, body);
    ReadFields(DescriptorBytes(width, height) + body, colors, control, bits, width % 65536, height % 65536,
               ShownArea(width, height), pixels, rest);
  }

  /** An image without a local table, from the fields of its descriptor. */
  lemma ReadFields(bytes: seq<Byte>, colors: seq<Rgb>, control: Control, bits: Bits, w: nat, h: nat, area: nat,
                   pixels: seq<nat>, rest: seq<Byte>)
    requires area == w * h
    requires |bytes| >= 11 && Word(bytes[1], bytes[2]) == Word(bytes[3], bytes[4]) == 0
    requires Word(bytes[5], bytes[6]) == w && Word(bytes[7], bytes[8]) == h && bytes[9] == 0 && bytes[10] == MIN_CODE
    requires var body := Deblock(bytes[11..]); body.Some? && body.value.1 == rest && BytesBits(body.value.0) == bits
    requires ReadPixels(MIN_CODE, bits, area) == Some(pixels)
    ensures ReadImage(bytes, colors, control)
         == Some((Image(control, 0, 0, w, h, false, colors, pixels, EndsCleanly(MIN_CODE, bits, area)), rest))
  {
    NoLocalTable();
    assert 11 + 3 * TableEntries(bytes[9]) == 11;
  }

  lemma NoLocalTable()
    ensures TableEntries(0) == 0
  {
  }

  lemma DescriptorFields(width: nat, height: nat, body: seq<Byte>)
    ensures var bytes := DescriptorBytes(width, height) + body;
      && bytes[1..9] == Le16(0) + Le16(0) + Le16(width) + Le16(height)
      && Word(bytes[1], bytes[2]) == Word(bytes[3], bytes[4]) == 0
      && Word(bytes[5], bytes[6]) == width % 65536 && Word(bytes[7], bytes[8]) == height % 65536
      && bytes[9] == 0 && bytes[10] == MIN_CODE && bytes[11..] == body
  {
    var head := DescriptorBytes(width, height);
    assert forall i :: 0 <= i < 11 ==> (head + body)[i] == head[i];
    WordOfLe16(width);
    WordOfLe16(height);
  }

  /** What the file holds: every frame's stream, compressed. */
  ghost predicate Streams(area: nat, streams: seq<seq<nat>>, datas: seq<seq<Byte>>) {
    && |streams| == |datas|
    && forall k :: 0 <= k < |streams| ==>
         Fills(area, streams[k]) && ImageData(MIN_CODE, streams[k], datas[k])
  }

  ghost function Images(width: nat, height: nat, palette: Palette, frames: seq<Frame>,
                        streams: seq<seq<nat>>): seq<Image>
    requires |frames| == |streams| && forall k :: 0 <= k < |streams| ==> Fills(width * height, streams[k])
  {
    seq(|frames|, k requires 0 <= k < |frames| => ImageOf(width, height, frames[k].delayCs, palette, streams[k]))
  }

  lemma {:induction false} ReadFrames(width: nat, height: nat, frames: seq<Frame>, streams: seq<seq<nat>>,
                                      datas: seq<seq<Byte>>, gif: Gif, palette: Palette)
    requires |frames| == |streams| && Streams(width * height, streams, datas) && gif.colors == palette
    ensures ReadBlocks(FramesBytes(width, height, frames, datas) + [0x3b], gif, NO_CONTROL)
         == Some(gif.(images := gif.images + Images(width, height, palette, frames, streams)))
  {
    if frames == [] {
      assert gif.images + Images(width, height, palette, frames, streams) == gif.images;
      assert FramesBytes(width, height, frames, datas) + [0x3b] == [0x3b];
    } else {
      var first := FrameBytes(width, height, frames[0].delayCs, datas[0]);
      var more := FramesBytes(width, height, frames[1..], datas[1..]);
      var image := ImageOf(width, height, frames[0].delayCs, palette, streams[0]);
      Regroup(first, more, [0x3b]);
      ReadFrame(width, height, frames[0].delayCs, streams[0], datas[0], more + [0x3b], gif, palette);
      var gif' := gif.(images := gif.images + [image]);
      ReadFrames(width, height, frames[1..], streams[1..], datas[1..], gif', palette);
      ImagesCons(width, height, palette, frames, streams);
      Joined(gif.images, image, Images(width, height, palette, frames[1..], streams[1..]));
    }
  }

  lemma Joined(images: seq<Image>, image: Image, more: seq<Image>)
    ensures (images + [image]) + more == images + ([image] + more)
  {
  }

  lemma ImagesCons(width: nat, height: nat, palette: Palette, frames: seq<Frame>, streams: seq<seq<nat>>)
    requires |frames| == |streams| > 0 && forall k :: 0 <= k < |streams| ==> Fills(width * height, streams[k])
    ensures Images(width, height, palette, frames, streams)
         == [ImageOf(width, height, frames[0].delayCs, palette, streams[0])]
          + Images(width, height, palette, frames[1..], streams[1..])
  {
    var all, more := Images(width, height, palette, frames, streams),
                     Images(width, height, palette, frames[1..], streams[1..]);
    forall k | 0 <= k < |more|
      ensures all[k + 1] == more[k]
    {
      assert frames[1..][k] == frames[k + 1] && streams[1..][k] == streams[k + 1];
    }
    assert all == [all[0]] + all[1..] && all[1..] == more;
  }

  ghost function FileBytes(width: nat, height: nat, palette: Palette, frames: seq<Frame>,
                           datas: seq<seq<Byte>>): seq<Byte>
    requires |frames| == |datas|
  {
    HeadBytes(width, height, palette) + LoopBytes() + FramesBytes(width, height, frames, datas) + [0x3b]
  }

  lemma FileParts(width: nat, height: nat, palette: Palette, frames: seq<Frame>, datas: seq<seq<Byte>>)
    requires |frames| == |datas|
    ensures FileBytes(width, height, palette, frames, datas)
         == HeadBytes(width, height, palette) + (LoopBytes() + (FramesBytes(width, height, frames, datas) + [0x3b]))
  {
  }

  /** The whole file reads back as the frames that went in. */
  lemma FileReadsBack(width: nat, height: nat, palette: Palette, frames: seq<Frame>, streams: seq<seq<nat>>,
                      datas: seq<seq<Byte>>)
    requires |frames| == |streams| && Streams(width * height, streams, datas)
    ensures ReadGif(FileBytes(width, height, palette, frames, datas))
         == Some(Gif(ScreenOf(width, height), palette, Some(0), Images(width, height, palette, frames, streams)))
  {
    var body := FramesBytes(width, height, frames, datas) + [0x3b];
    var gif := Gif(ScreenOf(width, height), palette, None, []);
    FileParts(width, height, palette, frames, datas);
    ReadHead(width, height, palette, LoopBytes() + body);
    ReadLoop(body, gif);
    ReadFrames(width, height, frames, streams, datas, gif.(loops := Some(0)), palette);
    assert [] + Images(width, height, palette, frames, streams) == Images(width, height, palette, frames, streams);
  }
}
