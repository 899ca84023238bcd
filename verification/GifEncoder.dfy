/** The entry point: frames in, a GIF89a file out, and what a reader of that file sees. */
module GifEncoder {
  import opened Collections
  import opened GifBits
  import opened GifByteWriter
  import opened GifCompress
  import opened GifFile
  import opened GifLzw
  import opened GifLzwEndCode
  import opened GifPalette
  import opened GifQuantize
  import opened GifReader
  import opened Options

  /** The image's index for every pixel is the nearest palette entry of that pixel's colour. */
  ghost predicate Depicts(pixels: seq<Byte>, palette: Palette, indices: seq<nat>) {
    && 4 * |indices| <= |pixels|
    && forall i :: 0 <= i < |indices| ==> Nearest(PixelAt(pixels, i), palette, indices[i])
  }

  /** One such index for every pixel of the buffer. */
  ghost predicate Mapped(pixels: seq<Byte>, palette: Palette, indices: seq<nat>) {
    |indices| == |pixels| / 4 && Depicts(pixels, palette, indices)
  }

  /** The end code follows the pixels, except in the cases of GifLzwEndCode. */
  ghost predicate EndsAsCompressed(image: Image) {
    Representable(MIN_CODE, image.indices) && image.indices != [] ==>
      (image.ended <==> !LosesEnd(EncodeFrom(MIN_CODE, image.indices)))
  }

  /**
   Image k of the file is frame k: its delay, restored to the background, waiting for nobody, all of it shown, its
   place, its pixels, and after them the end code or not.
   */
  ghost predicate ShowsFrame(image: Image, frame: Frame, width: nat, height: nat, palette: Palette) {
    && image.control == Control(frame.delayCs % 65536, 2, false, None)
    && image.left == image.top == 0 && !image.interlaced
    && image.width == width % 65536 && image.height == height % 65536
    && |image.indices| == image.width * image.height && image.colors == palette
    && Depicts(frame.pixels, palette, image.indices)
    && (forall i :: 0 <= i < |image.indices| ==> ShownAt(image, i) == Some(palette[image.indices[i]]))
    && (width < 65536 && height < 65536 && |frame.pixels| / 4 == width * height ==> EndsAsCompressed(image))
  }

  /** What a reader of the file sees. */
  ghost predicate Shows(gif: Gif, frames: seq<Frame>, width: nat, height: nat) {
    && gif.screen == Screen(width % 65536, height % 65536, 8, false, 0, 0)
    && |gif.colors| == 256 && gif.loops == Some(0) && |gif.images| == |frames|
    && forall k :: 0 <= k < |frames| ==> ShowsFrame(gif.images[k], frames[k], width, height, gif.colors)
  }

  /** Every sampled colour is in the palette. */
  ghost predicate KeepsSampled(gif: Gif, frames: seq<Frame>, width: nat, height: nat)
    requires Canvas(frames, width, height)
  {
    forall c :: Sampled(frames, width, height, c) ==> c in gif.colors
  }

  /**
   The file exists unless there are no frames, reads back as the frames, and keeps every sampled
   colour when there are at most 256 of them.
   */
  method EncodeAnimatedGif(frames: seq<Frame>, width: nat, height: nat) returns (file: Option<seq<Byte>>)
    requires Canvas(frames, width, height)
    ensures file == None <==> frames == []
    ensures file.Some? ==> ReadGif(file.value).Some? && Shows(ReadGif(file.value).value, frames, width, height)
    ensures file.Some? && FewColors(frames, width, height) ==>
      KeepsSampled(ReadGif(file.value).value, frames, width, height)
  {
    if |frames| == 0 {
      return None;
    }
    var palette, colorMap := BuildPaletteAndMap(frames, width, height);
    var bytes := WriteFile(frames, width, height, palette, colorMap);
    file := Some(bytes);
  }

  method WriteFile(frames: seq<Frame>, width: nat, height: nat, palette: Palette, colorMap: ColorMap)
    returns (bytes: seq<Byte>)
    requires Canvas(frames, width, height) && Remembers(colorMap.entries, palette)
    modifies colorMap
    ensures ReadGif(bytes).Some? && Shows(ReadGif(bytes).value, frames, width, height)
    ensures ReadGif(bytes).value.colors == palette
  {
    var w := new ByteWriter(width * height * |frames|);
    WriteHead(w, width, height, palette);
    WriteLoop(w);
    ghost var streams, datas := EncodeFrames(w, frames, width, height, palette, colorMap);
    w.Byte(0x3b);
    bytes := w.Finish();
    assert bytes == FileBytes(width, height, palette, frames, datas);
    FileShows(width, height, palette, frames, streams, datas);
  }

  method EncodeFrames(w: ByteWriter, frames: seq<Frame>, width: nat, height: nat, palette: Palette, colorMap: ColorMap)
    returns (ghost streams: seq<seq<nat>>, ghost datas: seq<seq<Byte>>)
    requires w.Valid() && Canvas(frames, width, height) && Remembers(colorMap.entries, palette)
    modifies w, w.buf, colorMap
    ensures w.Valid() && (w.buf == old(w.buf) || fresh(w.buf))
    ensures Written(width * height, palette, frames, streams, datas)
    ensures w.Contents == old(w.Contents) + FramesBytes(width, height, frames, datas)
  {
    streams, datas := [], [];
    ghost var done: seq<Byte> := [];
    for k := 0 to |frames|
      invariant w.Valid() && (w.buf == old(w.buf) || fresh(w.buf))
      invariant Remembers(colorMap.entries, palette)
      invariant FirstFrames(width, height, width * height, palette, frames, k, streams, datas, done)
      invariant w.Contents == old(w.Contents) + done
    {
      assert frames[k] in frames;
      ghost var stream, data := EncodeFrame(w, frames[k], width, height, palette, colorMap);
      NextFrame(width, height, width * height, palette, frames, k, streams, datas, done, stream, data);
      Regroup(old(w.Contents), done, FrameBytes(width, height, frames[k].delayCs, data));
      done := done + FrameBytes(width, height, frames[k].delayCs, data);
      streams, datas := streams + [stream], datas + [data];
    }
    assert frames[..|frames|] == frames;
  }

  /** The first k frames are written, as done. */
  ghost predicate FirstFrames(width: nat, height: nat, area: nat, palette: Palette, frames: seq<Frame>, k: int,
                              streams: seq<seq<nat>>, datas: seq<seq<Byte>>, done: seq<Byte>)
  {
    && 0 <= k <= |frames| && |streams| == |datas| == k
    && Written(area, palette, frames[..k], streams, datas)
    && done == FramesBytes(width, height, frames[..k], datas)
  }

  lemma NextFrame(width: nat, height: nat, area: nat, palette: Palette, frames: seq<Frame>, k: nat,
                  streams: seq<seq<nat>>, datas: seq<seq<Byte>>, done: seq<Byte>, stream: seq<nat>, data: seq<Byte>)
    requires k < |frames| && FirstFrames(width, height, area, palette, frames, k, streams, datas, done)
    requires Fills(area, stream) && ImageData(MIN_CODE, stream, data)
    requires Mapped(frames[k].pixels, palette, stream)
    ensures FirstFrames(width, height, area, palette, frames, k + 1, streams + [stream], datas + [data],
                        done + FrameBytes(width, height, frames[k].delayCs, data))
  {
    var before := frames[..k];
    TakeOneMore(frames, k);
    FramesBytesSnoc(width, height, before, datas, frames[k], data);
    WrittenSnoc(area, palette, before, streams, datas, frames[k], stream, data);
  }

  /** One frame: its pixels mapped, compressed and written. */
  method EncodeFrame(w: ByteWriter, frame: Frame, width: nat, height: nat, palette: Palette, colorMap: ColorMap)
    returns (ghost stream: seq<nat>, ghost data: seq<Byte>)
    requires w.Valid() && |frame.pixels| >= 4 * (width * height) && Remembers(colorMap.entries, palette)
    modifies w, w.buf, colorMap
    ensures w.Valid() && (w.buf == old(w.buf) || fresh(w.buf)) && Remembers(colorMap.entries, palette)
    ensures Fills(width * height, stream) && ImageData(MIN_CODE, stream, data)
    ensures Mapped(frame.pixels, palette, stream)
    ensures w.Contents == old(w.Contents) + FrameBytes(width, height, frame.delayCs, data)
  {
    var out := QuantizeFrame(frame.pixels, palette, colorMap);
    var indices := out[..];
    AllRepresentable(indices);
    var compressed := LzwCompress(indices, MIN_CODE);
    WriteFrame(w, frame.delayCs, width, height, compressed);
    stream, data := indices, compressed;
  }

  lemma AllRepresentable(indices: seq<Byte>)
    ensures Representable(MIN_CODE, indices)
  {
  }

  /** What has been written for the frames so far. */
  ghost predicate Written(area: nat, palette: Palette, frames: seq<Frame>, streams: seq<seq<nat>>,
                          datas: seq<seq<Byte>>)
  {
    && |frames| == |streams| && Streams(area, streams, datas)
    && forall k :: 0 <= k < |frames| ==> Mapped(frames[k].pixels, palette, streams[k])
  }

  lemma WrittenSnoc(area: nat, palette: Palette, frames: seq<Frame>, streams: seq<seq<nat>>,
                    datas: seq<seq<Byte>>, frame: Frame, stream: seq<nat>, data: seq<Byte>)
    requires Written(area, palette, frames, streams, datas)
    requires Fills(area, stream) && ImageData(MIN_CODE, stream, data)
    requires Mapped(frame.pixels, palette, stream)
    ensures Written(area, palette, frames + [frame], streams + [stream], datas + [data])
  {
  }

  lemma {:induction false} FramesBytesSnoc(width: nat, height: nat, frames: seq<Frame>, datas: seq<seq<Byte>>,
                                           frame: Frame, data: seq<Byte>)
    requires |frames| == |datas|
    ensures FramesBytes(width, height, frames + [frame], datas + [data])
         == FramesBytes(width, height, frames, datas) + FrameBytes(width, height, frame.delayCs, data)
  {
    var all, alls := frames + [frame], datas + [data];
    if frames == [] {
      assert all[1..] == [] && alls[1..] == [];
    } else {
      assert all[1..] == frames[1..] + [frame] && alls[1..] == datas[1..] + [data];
      FramesBytesSnoc(width, height, frames[1..], datas[1..], frame, data);
    }
  }

  lemma ImageShows(width: nat, height: nat, palette: Palette, frame: Frame, stream: seq<nat>)
    requires Fills(width * height, stream) && Mapped(frame.pixels, palette, stream)
    ensures ShowsFrame(ImageOf(width, height, frame.delayCs, palette, stream), frame, width, height, palette)
  {
    if |stream| == width * height > 0 && width < 65536 && height < 65536 {
      EndsUnlessLost(width, height, frame.delayCs, palette, stream);
    }
  }

  lemma FileShows(width: nat, height: nat, palette: Palette, frames: seq<Frame>, streams: seq<seq<nat>>,
                  datas: seq<seq<Byte>>)
    requires Written(width * height, palette, frames, streams, datas)
    ensures var r := ReadGif(FileBytes(width, height, palette, frames, datas));
      r.Some? && Shows(r.value, frames, width, height) && r.value.colors == palette
  {
    FileReadsBack(width, height, palette, frames, streams, datas);
    forall k | 0 <= k < |frames|
      ensures ShowsFrame(Images(width, height, palette, frames, streams)[k], frames[k], width, height, palette)
    {
      ImageShows(width, height, palette, frames[k], streams[k]);
    }
  }

  /** In a file whose palette has the colour, the pixel a reader shows is the pixel that was given. */
  lemma SampledPixelsExact(gif: Gif, frames: seq<Frame>, width: nat, height: nat, k: nat, i: nat)
    requires Canvas(frames, width, height) && Shows(gif, frames, width, height)
    requires KeepsSampled(gif, frames, width, height)
    requires k < |frames| && i < |gif.images[k].indices|
    requires 4 * i + 3 < |frames[k].pixels| && Sampled(frames, width, height, PixelAt(frames[k].pixels, i))
    ensures var pixels := frames[k].pixels;
      ShownAt(gif.images[k], i) == Some(Rgb(pixels[4 * i], pixels[4 * i + 1], pixels[4 * i + 2]))
  {
    assert ShowsFrame(gif.images[k], frames[k], width, height, gif.colors);
    ExactWhenPresent(PixelAt(frames[k].pixels, i), gif.colors, gif.images[k].indices[i]);
  }

  /** The size and the delays survive exactly when they fit sixteen bits. */
  lemma SizeSurvives(gif: Gif, frames: seq<Frame>, width: nat, height: nat)
    requires Canvas(frames, width, height) && Shows(gif, frames, width, height)
    ensures gif.screen.width == width <==> width < 65536
    ensures gif.screen.height == height <==> height < 65536
    ensures forall k :: 0 <= k < |frames| ==>
      (gif.images[k].control.delay == frames[k].delayCs <==> frames[k].delayCs < 65536)
  {
  }

  // ── Writing the pieces ─────────────────────────────────────────────────────

  method WriteHead(w: ByteWriter, width: nat, height: nat, palette: Palette)
    requires w.Valid() && w.Contents == []
    modifies w, w.buf
    ensures w.Valid() && (w.buf == old(w.buf) || fresh(w.buf))
    ensures w.Contents == HeadBytes(width, height, palette)
  {
    WriteScreen(w, width, height);
    WritePalette(w, palette);
  }

  method WriteScreen(w: ByteWriter, width: nat, height: nat)
    requires w.Valid() && w.Contents == []
    modifies w, w.buf
    ensures w.Valid() && (w.buf == old(w.buf) || fresh(w.buf))
    ensures w.Contents == ScreenBytes(width, height)
  {
    w.AsciiText("GIF89a");
    assert w.Contents == Ascii("GIF89a");
    w.LE16(width);
    w.LE16(height);
    w.Bytes([0xf7, 0x00, 0x00]);
  }

  method WritePalette(w: ByteWriter, palette: seq<Rgb>)
    requires w.Valid()
    modifies w, w.buf
    ensures w.Valid() && (w.buf == old(w.buf) || fresh(w.buf))
    ensures w.Contents == old(w.Contents) + PaletteBytes(palette)
  {
    for i := 0 to |palette|
      invariant w.Valid() && (w.buf == old(w.buf) || fresh(w.buf))
      invariant w.Contents == old(w.Contents) + PaletteBytes(palette[..i])
    {
      w.Bytes([palette[i].r, palette[i].g, palette[i].b]);
      assert palette[..i + 1][..i] == palette[..i];
    }
    assert palette[..|palette|] == palette;
  }

  method WriteLoop(w: ByteWriter)
    requires w.Valid()
    modifies w, w.buf
    ensures w.Valid() && (w.buf == old(w.buf) || fresh(w.buf))
    ensures w.Contents == old(w.Contents) + LoopBytes()
  {
    w.Bytes([0x21, 0xff, 11]);
    w.AsciiText("NETSCAPE");
    w.AsciiText("2.0");
    assert w.Contents == old(w.Contents) + ([0x21, 0xff, 11] + Ascii("NETSCAPE") + Ascii("2.0"));
    w.Bytes([3, 1]);
    w.LE16(0);
    w.Byte(0);
    assert w.Contents == old(w.Contents) + LoopBytes();
  }

  method WriteFrame(w: ByteWriter, delay: nat, width: nat, height: nat, compressed: seq<Byte>)
    requires w.Valid()
    modifies w, w.buf
    ensures w.Valid() && (w.buf == old(w.buf) || fresh(w.buf))
    ensures w.Contents == old(w.Contents) + FrameBytes(width, height, delay, compressed)
  {
    w.Bytes([0x21, 0xf9, 4, 0x08]);
    w.LE16(delay);
    w.Bytes([0x00, 0x00]);
    assert w.Contents == old(w.Contents) + ControlBytes(delay);
    WriteDescriptor(w, width, height);
    w.Bytes(compressed);
    Regroup(old(w.Contents), ControlBytes(delay), DescriptorBytes(width, height));
    Regroup(ControlBytes(delay), DescriptorBytes(width, height), compressed);
    Regroup(old(w.Contents), ControlBytes(delay) + DescriptorBytes(width, height), compressed);
  }

  method WriteDescriptor(w: ByteWriter, width: nat, height: nat)
    requires w.Valid()
    modifies w, w.buf
    ensures w.Valid() && (w.buf == old(w.buf) || fresh(w.buf))
    ensures w.Contents == old(w.Contents) + DescriptorBytes(width, height)
  {
    w.Byte(0x2c);
    w.LE16(0);
    w.LE16(0);
    assert w.Contents == old(w.Contents) + PlaceBytes();
    WriteSize(w, width, height);
    Regroup(old(w.Contents), PlaceBytes(), Le16(width) + Le16(height) + [0x00, MIN_CODE]);
  }

  method WriteSize(w: ByteWriter, width: nat, height: nat)
    requires w.Valid()
    modifies w, w.buf
    ensures w.Valid() && (w.buf == old(w.buf) || fresh(w.buf))
    ensures w.Contents == old(w.Contents) + (Le16(width) + Le16(height) + [0x00, MIN_CODE])
  {
    w.LE16(width);
    w.LE16(height);
    w.Bytes([0x00, MIN_CODE]);
  }
}
