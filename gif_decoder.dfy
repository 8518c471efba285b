/**
 * The GIF decoder: `read` folds the parsed blocks into frames, remembering the
 * last graphic control extension, the global colour table and the NETSCAPE2.0
 * loop count; `renderFrame` composites one frame on the previous output following
 * the disposal methods of section 23 of GIF89a, keeping a snapshot of the canvas
 * for frames whose disposal method is 3 (restore to previous).
 */
module GifDecoders {
  import opened Bytes
  import opened Results
  import opened Canvas
  import opened GifBlocks
  import APNGDecoders
  import FrameSeqDecoders

  /** What the parser hands the decoder, in stream order; comments, plain text and the trailer are `OtherBlock`. */
  datatype Block =
    | ScreenBlock(screen: ScreenDescriptor)
    | ColorTableBlock(table: ColorTable)
    | GraphicControlBlock(control: GraphicControl)
    | ImageBlock(descriptor: ImageDescriptor)
    | ApplicationBlock(application: ApplicationExtension)
    | OtherBlock

  /** The duration a GIF frame without a delay gets, in 1/100 s. */
  const DEFAULT_DELAY: int := 10

  /**
   * A GIF frame. Without a graphic control extension the duration is the generic
   * frame's default, which lies outside this model (`None`).
   */
  datatype GifFrame = GifFrame(
    disposalMethod: int, transparentColorIndex: int, frameDuration: Option<int>,
    frameX: int, frameY: int, frameWidth: int, frameHeight: int,
    interlace: bool, colorTable: Option<ColorTable>, lzwMinCodeSize: int, imageDataOffset: int)
  {
    predicate TransparencyFlag()
    {
      transparentColorIndex >= 0
    }
  }

  /** `GifFrame(reader, globalColorTable, graphicControlExtension, imageDescriptor)`. */
  function NewGifFrame(global: Option<ColorTable>, gce: Option<GraphicControl>, d: ImageDescriptor): (f: GifFrame)
    ensures f.frameX == d.frameX && f.frameY == d.frameY && f.frameWidth == d.frameWidth && f.frameHeight == d.frameHeight
    ensures f.imageDataOffset == d.imageDataOffset && f.lzwMinCodeSize == d.lzwMinimumCodeSize
    ensures f.interlace == d.InterlaceFlag()
    ensures f.colorTable == (if d.LocalColorTableFlag() then d.localColorTable else global)
    ensures 0 <= f.disposalMethod <= 7 && (gce.None? ==> f.disposalMethod == 0)
    ensures f.frameDuration.Some? <==> gce.Some?
  {
    match gce
    case Some(g) =>
      GifFrame(g.DisposalMethod(),
        if g.TransparencyFlag() then g.transparentColorIndex else -1,
        Some((if g.delayTime <= 0 then DEFAULT_DELAY else g.delayTime) * 10),
        d.frameX, d.frameY, d.frameWidth, d.frameHeight, d.InterlaceFlag(),
        if d.LocalColorTableFlag() then d.localColorTable else global,
        d.lzwMinimumCodeSize, d.imageDataOffset)
    case None =>
      GifFrame(0, -1, None,
        d.frameX, d.frameY, d.frameWidth, d.frameHeight, d.InterlaceFlag(),
        if d.LocalColorTableFlag() then d.localColorTable else global,
        d.lzwMinimumCodeSize, d.imageDataOffset)
  }

  /**
   * A frame with a graphic control extension lasts its delay in milliseconds, a
   * delay of 0 counting as 100 ms; it is transparent exactly when the extension's
   * transparency flag is set, and then its transparent index is the extension's.
   */
  lemma GifFrameTiming(global: Option<ColorTable>, g: GraphicControl, d: ImageDescriptor)
    requires 0 <= g.delayTime < TWO_16
    ensures var f := NewGifFrame(global, Some(g), d);
      && f.frameDuration.Some? && f.frameDuration.value % 10 == 0 && 10 <= f.frameDuration.value <= 655350
      && (g.delayTime == 0 ==> f.frameDuration.value == 100)
      && (g.delayTime > 0 ==> f.frameDuration.value == 10 * g.delayTime)
      && (f.TransparencyFlag() <==> g.TransparencyFlag())
      && (f.TransparencyFlag() ==> f.transparentColorIndex == g.transparentColorIndex)
      && f.disposalMethod == g.DisposalMethod()
  {
  }

  /** A frame without a graphic control extension is opaque and kept (disposal 0). */
  lemma GifFrameWithoutControl(global: Option<ColorTable>, d: ImageDescriptor)
    ensures var f := NewGifFrame(global, None, d);
      !f.TransparencyFlag() && f.disposalMethod == 0 && f.frameDuration.None?
  {
  }

  // ---------------------------------------------------------------------
  // `read`: the fold over the blocks.

  /** The local variables of `read` and the decoder's loop count as they stand after some blocks. */
  datatype ReadState = ReadState(
    canvasWidth: int, canvasHeight: int, globalColorTable: Option<ColorTable>,
    graphicControl: Option<GraphicControl>, bgColorIndex: int, frames: seq<GifFrame>, loopCount: Option<int>)

  const INITIAL_READ: ReadState := ReadState(0, 0, None, None, -1, [], None)

  /** One block's effect on the state. */
  function ReadStep(s: ReadState, b: Block): (t: ReadState)
    ensures t.graphicControl == (if b.GraphicControlBlock? then Some(b.control) else s.graphicControl)
    ensures t.globalColorTable == (if b.ColorTableBlock? then Some(b.table) else s.globalColorTable)
    ensures t.frames == s.frames + (if b.ImageBlock? then [NewGifFrame(s.globalColorTable, s.graphicControl, b.descriptor)] else [])
  {
    match b
    case ScreenBlock(lsd) =>
      s.(canvasWidth := lsd.screenWidth, canvasHeight := lsd.screenHeight,
         bgColorIndex := if lsd.GColorTableFlag() then lsd.bgColorIndex else s.bgColorIndex)
    case ColorTableBlock(table) => s.(globalColorTable := Some(table))
    case GraphicControlBlock(gce) => s.(graphicControl := Some(gce))
    case ImageBlock(d) => s.(frames := s.frames + [NewGifFrame(s.globalColorTable, s.graphicControl, d)])
    case ApplicationBlock(a) => if a.identifier == NETSCAPE then s.(loopCount := Some(a.loopCount)) else s
    case OtherBlock => s
  }

  /** The state after all of `bs`, block by block from the first. */
  function ReadBlocks(bs: seq<Block>): ReadState
  {
    if |bs| == 0 then INITIAL_READ else ReadStep(ReadBlocks(bs[..|bs| - 1]), bs[|bs| - 1])
  }

  /**
   * A graphic control extension stays in force until the next one: the one in
   * effect after `bs` is the last in `bs`, and there is one only if `bs` has one.
   */
  lemma {:induction false} LastControlInForce(bs: seq<Block>)
    ensures ReadBlocks(bs).graphicControl.None? <==> forall i :: 0 <= i < |bs| ==> !bs[i].GraphicControlBlock?
    ensures ReadBlocks(bs).graphicControl.Some? ==>
      (exists i :: 0 <= i < |bs| &&
        bs[i] == GraphicControlBlock(ReadBlocks(bs).graphicControl.value) &&
        forall j :: i < j < |bs| ==> !bs[j].GraphicControlBlock?)
  {
    if |bs| > 0 {
      var front := bs[..|bs| - 1];
      var last := bs[|bs| - 1];
      LastControlInForce(front);
      var gc := ReadBlocks(bs).graphicControl;
      assert gc == (if last.GraphicControlBlock? then Some(last.control) else ReadBlocks(front).graphicControl);
      if last.GraphicControlBlock? {
        assert bs[|bs| - 1] == GraphicControlBlock(gc.value);
      } else {
        assert forall i :: 0 <= i < |front| ==> front[i] == bs[i];
        if gc.Some? {
          var i :| 0 <= i < |front| && front[i] == GraphicControlBlock(gc.value) &&
            forall j :: i < j < |front| ==> !front[j].GraphicControlBlock?;
          assert bs[i] == GraphicControlBlock(gc.value);
        }
      }
    }
  }

  /** The frames read from a prefix of the blocks are a prefix of the frames read from all of them. */
  lemma {:induction false} FramesGrow(bs: seq<Block>, k: nat)
    requires k <= |bs|
    ensures ReadBlocks(bs[..k]).frames <= ReadBlocks(bs).frames
    decreases |bs| - k
  {
    if k < |bs| {
      var front := bs[..|bs| - 1];
      assert bs[..k] == front[..k];
      FramesGrow(front, k);
    } else {
      assert bs[..k] == bs;
    }
  }

  /**
   * Each image descriptor becomes one frame, in stream order: the descriptor at
   * position `i` gives the frame after those read before it, built with the global
   * table and the graphic control extension in force at that point.
   */
  lemma FrameOfDescriptor(bs: seq<Block>, i: int)
    requires 0 <= i < |bs| && bs[i].ImageBlock?
    ensures var before := ReadBlocks(bs[..i]);
      && |before.frames| < |ReadBlocks(bs).frames|
      && ReadBlocks(bs).frames[|before.frames|] ==
           NewGifFrame(before.globalColorTable, before.graphicControl, bs[i].descriptor)
  {
    var before := ReadBlocks(bs[..i]);
    assert bs[..i + 1][..i] == bs[..i];
    assert ReadBlocks(bs[..i + 1]).frames == before.frames + [NewGifFrame(before.globalColorTable, before.graphicControl, bs[i].descriptor)];
    FramesGrow(bs, i + 1);
  }

  /** The background index is -1 or the index of a screen descriptor with a global colour table. */
  lemma {:induction false} BackgroundIndexFromScreen(bs: seq<Block>)
    ensures -1 <= ReadBlocks(bs).bgColorIndex < 256
    ensures ReadBlocks(bs).bgColorIndex >= 0 ==>
      (exists i :: 0 <= i < |bs| && bs[i].ScreenBlock? &&
        bs[i].screen.GColorTableFlag() && bs[i].screen.bgColorIndex == ReadBlocks(bs).bgColorIndex)
  {
    if |bs| > 0 {
      var front := bs[..|bs| - 1];
      BackgroundIndexFromScreen(front);
      assert forall i :: 0 <= i < |front| ==> front[i] == bs[i];
      var b := bs[|bs| - 1];
      if !(b.ScreenBlock? && b.screen.GColorTableFlag()) && ReadBlocks(bs).bgColorIndex >= 0 {
        assert ReadBlocks(bs).bgColorIndex == ReadBlocks(front).bgColorIndex;
        var i :| 0 <= i < |front| && front[i].ScreenBlock? && front[i].screen.GColorTableFlag() &&
          front[i].screen.bgColorIndex == ReadBlocks(front).bgColorIndex;
        assert bs[i] == front[i];
      }
    }
  }

  /** Only a NETSCAPE2.0 application extension sets the loop count. */
  lemma {:induction false} LoopCountFromNetscape(bs: seq<Block>)
    ensures ReadBlocks(bs).loopCount.Some? ==>
      (exists i :: 0 <= i < |bs| && bs[i].ApplicationBlock? &&
        bs[i].application.identifier == NETSCAPE && bs[i].application.loopCount == ReadBlocks(bs).loopCount.value)
  {
    if |bs| > 0 {
      var front := bs[..|bs| - 1];
      LoopCountFromNetscape(front);
      var b := bs[|bs| - 1];
      if !(b.ApplicationBlock? && b.application.identifier == NETSCAPE) && ReadBlocks(bs).loopCount.Some? {
        var i :| 0 <= i < |front| && front[i].ApplicationBlock? && front[i].application.identifier == NETSCAPE &&
          front[i].application.loopCount == ReadBlocks(front).loopCount.value;
        assert bs[i] == front[i];
      }
    }
  }

  /** `Color.rgb(red, green, blue)`: an opaque ARGB colour. */
  function Rgb(red: Byte, green: Byte, blue: Byte): (argb: int)
    ensures argb / TWO_24 == 0xff && argb % TWO_24 == red * TWO_16 + green * 256 + blue
  {
    0xff00_0000 + red * TWO_16 + green * 256 + blue
  }

  /** The background colour from a table entry packed red first: `Color.rgb(abgr and 0xff, abgr shr 8 and 0xff, abgr shr 16 and 0xff)`. */
  function TableColor(abgr: int): (argb: int)
  {
    Rgb(abgr % 256, (abgr / 256) % 256, (abgr / TWO_16) % 256)
  }

  /** A colour read from a table comes back as the opaque colour of its three bytes, never transparent. */
  lemma TableColorOfBytes(red: Byte, green: Byte, blue: Byte)
    ensures TableColor(red + 256 * green + TWO_16 * blue) == Rgb(red, green, blue)
    ensures ColorPixel(TableColor(red + 256 * green + TWO_16 * blue)) != Transparent
  {
    var abgr := red + 256 * green + TWO_16 * blue;
    assert abgr / 256 == green + 256 * blue;
    assert abgr / TWO_16 == blue;
  }

  // ---------------------------------------------------------------------
  // Compositing, as section 23 of GIF89a describes the disposal methods.

  /** The rectangle a GIF frame covers on the sampled canvas. */
  function GifFrameRect(f: GifFrame, sample: int): Rect
    requires sample >= 1
  {
    SampledRect(f.frameX, f.frameY, f.frameWidth, f.frameHeight, sample)
  }

  /** What goes behind the frame: nothing for a frame with a transparent colour, else the background colour. */
  function BackgroundOf(f: GifFrame, bgColor: int): (p: Pixel)
    ensures f.TransparencyFlag() ==> p == Transparent
    ensures !f.TransparencyFlag() ==> p == ColorPixel(bgColor)
  {
    if f.TransparencyFlag() then Transparent else ColorPixel(bgColor)
  }

  /**
   * The canvas frame `i` is drawn on: frame 0 starts from its background;
   * otherwise the previous frame's disposal method acts, clipped to its rectangle,
   * on the previous output: 2 clears it, 3 clears it and draws the snapshot into
   * it, anything else leaves it.
   */
  function Disposed(frames: seq<GifFrame>, i: int, bgColor: int, frameBuffer: Image, snapshot: Image, sample: int): (c: Image)
    requires 0 <= i < |frames| && sample >= 1 && APNGDecoders.SameSize(snapshot, frameBuffer)
    ensures APNGDecoders.SameSize(c, frameBuffer)
  {
    if i == 0 then Erase(frameBuffer, BackgroundOf(frames[0], bgColor))
    else
      var pre := frames[i - 1];
      var rect := GifFrameRect(pre, sample);
      if pre.disposalMethod == 2 then FillRect(frameBuffer, rect, Transparent)
      else if pre.disposalMethod == 3 then DrawClipped(FillRect(frameBuffer, rect, Transparent), snapshot, rect)
      else frameBuffer
  }

  /** A frame that is restored to previous saves the canvas it is about to be drawn on. */
  function NextSnapshot(frames: seq<GifFrame>, i: int, bgColor: int, frameBuffer: Image, snapshot: Image, sample: int): (s: Image)
    requires 0 <= i < |frames| && sample >= 1 && APNGDecoders.SameSize(snapshot, frameBuffer)
    ensures APNGDecoders.SameSize(s, frameBuffer)
  {
    if frames[i].disposalMethod == 3 then Disposed(frames, i, bgColor, frameBuffer, snapshot, sample) else snapshot
  }

  /** `renderFrame`: the frame's layer over the disposed canvas, its background behind everything. */
  function Rendered(frames: seq<GifFrame>, i: int, bgColor: int, frameBuffer: Image, snapshot: Image, layer: Image, sample: int): (out: Image)
    requires 0 <= i < |frames| && sample >= 1
    requires APNGDecoders.SameSize(snapshot, frameBuffer) && APNGDecoders.SameSize(layer, frameBuffer)
    ensures APNGDecoders.SameSize(out, frameBuffer)
  {
    DstOver(Draw(Disposed(frames, i, bgColor, frameBuffer, snapshot, sample), layer), BackgroundOf(frames[i], bgColor))
  }

  /** Frame 0 is drawn on a canvas of its background alone, whatever was shown before. */
  lemma FirstFrameStartsFromBackground(frames: seq<GifFrame>, bgColor: int, frameBuffer: Image, snapshot: Image, sample: int)
    requires |frames| > 0 && sample >= 1 && APNGDecoders.SameSize(snapshot, frameBuffer)
    ensures var c := Disposed(frames, 0, bgColor, frameBuffer, snapshot, sample);
      forall y, x :: 0 <= y < |c| && 0 <= x < |c[y]| ==> c[y][x] == BackgroundOf(frames[0], bgColor)
  {
  }

  /** Disposal methods 0, 1 and 4-7 leave the frame in place: the next frame starts from the output. */
  lemma LeftInPlace(frames: seq<GifFrame>, i: int, bgColor: int, out: Image, snapshot: Image, sample: int)
    requires 1 <= i < |frames| && sample >= 1 && APNGDecoders.SameSize(snapshot, out)
    requires frames[i - 1].disposalMethod != 2 && frames[i - 1].disposalMethod != 3
    ensures Disposed(frames, i, bgColor, out, snapshot, sample) == out
  {
  }

  /** Disposal method 2 clears the frame's rectangle and keeps the rest of the output. */
  lemma RestoredToBackground(frames: seq<GifFrame>, i: int, bgColor: int, out: Image, snapshot: Image, sample: int)
    requires 1 <= i < |frames| && sample >= 1 && APNGDecoders.SameSize(snapshot, out)
    requires frames[i - 1].disposalMethod == 2
    ensures var c := Disposed(frames, i, bgColor, out, snapshot, sample);
      forall y, x :: 0 <= y < |out| && 0 <= x < |out[y]| ==>
        c[y][x] == (if GifFrameRect(frames[i - 1], sample).Contains(x, y) then Transparent else out[y][x])
  {
  }

  /**
   * Disposal method 3: inside frame `i`'s rectangle the next frame starts from the
   * canvas as it was before frame `i` was drawn; outside it, from frame `i`'s output.
   */
  lemma RestoredToPrevious(frames: seq<GifFrame>, i: int, bgColor: int, frameBuffer: Image, snapshot: Image, layer: Image, sample: int)
    requires 0 <= i && i + 1 < |frames| && sample >= 1
    requires APNGDecoders.SameSize(snapshot, frameBuffer) && APNGDecoders.SameSize(layer, frameBuffer)
    requires frames[i].disposalMethod == 3
    ensures var before := Disposed(frames, i, bgColor, frameBuffer, snapshot, sample);
      var out := Rendered(frames, i, bgColor, frameBuffer, snapshot, layer, sample);
      var c := Disposed(frames, i + 1, bgColor, out, NextSnapshot(frames, i, bgColor, frameBuffer, snapshot, sample), sample);
      forall y, x :: 0 <= y < |out| && 0 <= x < |out[y]| ==>
        c[y][x] == (if GifFrameRect(frames[i], sample).Contains(x, y) then before[y][x] else out[y][x])
  {
    var before := Disposed(frames, i, bgColor, frameBuffer, snapshot, sample);
    var out := Rendered(frames, i, bgColor, frameBuffer, snapshot, layer, sample);
    RestoreRect(out, before, GifFrameRect(frames[i], sample));
  }

  /** With an opaque background behind it, no pixel of the output is transparent. */
  lemma OpaqueBackgroundCovers(frames: seq<GifFrame>, i: int, bgColor: int, frameBuffer: Image, snapshot: Image, layer: Image, sample: int)
    requires 0 <= i < |frames| && sample >= 1
    requires APNGDecoders.SameSize(snapshot, frameBuffer) && APNGDecoders.SameSize(layer, frameBuffer)
    requires !frames[i].TransparencyFlag() && bgColor != 0
    ensures var out := Rendered(frames, i, bgColor, frameBuffer, snapshot, layer, sample);
      forall y, x :: 0 <= y < |out| && 0 <= x < |out[y]| ==> out[y][x] != Transparent
  {
  }

  // ---------------------------------------------------------------------
  // The snapshot rule as the source writes it.

  /**
   * The source saves the previous output (before its disposal) when a frame with
   * disposal 3 follows one without, and never for frame 0. The corrected
   * `NextSnapshot` drops both guards and saves the disposed canvas instead.
   */
  function NextSnapshotAsWritten(frames: seq<GifFrame>, i: int, frameBuffer: Image, snapshot: Image): (s: Image)
    requires 0 <= i < |frames|
    ensures s == frameBuffer || s == snapshot
  {
    if i > 0 && frames[i].disposalMethod == 3 && frames[i - 1].disposalMethod != 3 then frameBuffer else snapshot
  }

  /**
   * A 1 x 1 canvas: frame 0 (disposal 2) paints a colour, frame 1 (disposal 3)
   * paints nothing. Frame 1 was drawn on the cleared canvas, so frame 2 must start
   * from it cleared; with the source's snapshot it starts from frame 0's colour.
   */
  lemma AsWrittenRestoresDisposedFrame()
    ensures var f0 := GifFrame(2, -1, Some(100), 0, 0, 1, 1, false, None, 2, 0);
      var f1 := GifFrame(3, -1, Some(100), 0, 0, 1, 1, false, None, 2, 0);
      var frames := [f0, f1, f1];
      var out0 := [[Solid(1)]];
      var out1 := Rendered(frames, 1, 0, out0, [[Transparent]], [[Transparent]], 1);
      && out1 == [[Transparent]]
      && Disposed(frames, 2, 0, out1, NextSnapshotAsWritten(frames, 1, out0, [[Transparent]]), 1) == [[Solid(1)]]
      && Disposed(frames, 2, 0, out1, NextSnapshot(frames, 1, 0, out0, [[Transparent]], 1), 1) == [[Transparent]]
  {
    var f0 := GifFrame(2, -1, Some(100), 0, 0, 1, 1, false, None, 2, 0);
    var f1 := GifFrame(3, -1, Some(100), 0, 0, 1, 1, false, None, 2, 0);
    var frames := [f0, f1, f1];
    var out0 := [[Solid(1)]];
    var cleared := Disposed(frames, 1, 0, out0, [[Transparent]], 1);
    assert cleared == [[Transparent]] by {
      assert |cleared| == 1 && |cleared[0]| == 1 && cleared[0][0] == Transparent;
      assert cleared[0] == [Transparent];
    }
    var out1 := Rendered(frames, 1, 0, out0, [[Transparent]], [[Transparent]], 1);
    assert out1 == [[Transparent]] by {
      assert |out1| == 1 && |out1[0]| == 1 && out1[0][0] == Transparent;
      assert out1[0] == [Transparent];
    }
    var asWritten := Disposed(frames, 2, 0, out1, out0, 1);
    assert asWritten == [[Solid(1)]] by {
      assert |asWritten| == 1 && |asWritten[0]| == 1 && asWritten[0][0] == Solid(1);
      assert asWritten[0] == [Solid(1)];
    }
    var corrected := Disposed(frames, 2, 0, out1, cleared, 1);
    assert corrected == [[Transparent]] by {
      assert |corrected| == 1 && |corrected[0]| == 1 && corrected[0][0] == Transparent;
      assert corrected[0] == [Transparent];
    }
  }

  /**
   * The frame-0 guard: on a 1 x 1 canvas with frames of disposals 3, 1, 1, 3, the
   * last frame saves the colour frame 2 left. Frame 0 of the next loop has disposal
   * 3 but takes no snapshot, so frame 1 starts from that stale colour instead of
   * the cleared canvas frame 0 was drawn on.
   */
  lemma AsWrittenKeepsStaleSnapshot()
    ensures var f3 := GifFrame(3, -1, Some(100), 0, 0, 1, 1, false, None, 2, 0);
      var f1 := GifFrame(1, -1, Some(100), 0, 0, 1, 1, false, None, 2, 0);
      var frames := [f3, f1, f1, f3];
      var stale := [[Solid(2)]];
      var out0 := Rendered(frames, 0, 0, stale, stale, [[Transparent]], 1);
      && NextSnapshotAsWritten(frames, 3, stale, [[Transparent]]) == stale
      && NextSnapshotAsWritten(frames, 0, stale, stale) == stale
      && out0 == [[Transparent]]
      && Disposed(frames, 1, 0, out0, stale, 1) == stale
      && Disposed(frames, 1, 0, out0, NextSnapshot(frames, 0, 0, stale, stale, 1), 1) == [[Transparent]]
  {
    var f3 := GifFrame(3, -1, Some(100), 0, 0, 1, 1, false, None, 2, 0);
    var f1 := GifFrame(1, -1, Some(100), 0, 0, 1, 1, false, None, 2, 0);
    var frames := [f3, f1, f1, f3];
    var stale := [[Solid(2)]];
    var cleared := Disposed(frames, 0, 0, stale, stale, 1);
    assert cleared == [[Transparent]] by {
      assert |cleared| == 1 && |cleared[0]| == 1 && cleared[0][0] == Transparent;
      assert cleared[0] == [Transparent];
    }
    var out0 := Rendered(frames, 0, 0, stale, stale, [[Transparent]], 1);
    assert out0 == [[Transparent]] by {
      assert |out0| == 1 && |out0[0]| == 1 && out0[0][0] == Transparent;
      assert out0[0] == [Transparent];
    }
    var asWritten := Disposed(frames, 1, 0, out0, stale, 1);
    assert asWritten == stale by {
      assert |asWritten| == 1 && |asWritten[0]| == 1 && asWritten[0][0] == Solid(2);
      assert asWritten[0] == [Solid(2)];
    }
    var corrected := Disposed(frames, 1, 0, out0, cleared, 1);
    assert corrected == [[Transparent]] by {
      assert |corrected| == 1 && |corrected[0]| == 1 && corrected[0][0] == Transparent;
      assert corrected[0] == [Transparent];
    }
  }

  // ---------------------------------------------------------------------
  // The decoder object.

  class GifDecoder {
    /** The sample size the canvas is scaled down by. */
    const sampleSize: int
    /** `fullRect`'s size, as `read` returned it. */
    var fullWidth: int
    var fullHeight: int
    var frames: seq<GifFrame>
    var bgColor: int
    var loopCount: int
    /** `snapShot.byteBuffer`; `None` until `read` allocates it. */
    var snapshot: Option<Image>

    constructor (sample: int)
      requires sample >= 1
      ensures sampleSize == sample && frames == [] && bgColor == 0 && loopCount == 0 && snapshot == None
      ensures fullWidth == 0 && fullHeight == 0
    {
      sampleSize := sample;
      fullWidth := 0;
      fullHeight := 0;
      frames := [];
      bgColor := 0;
      loopCount := 0;
      snapshot := None;
    }

    /** `getDesiredSample`: GIF images are never scaled down. */
    method GetDesiredSample(desiredWidth: int, desiredHeight: int) returns (s: int)
      ensures s == 1
    {
      s := 1;
    }

    /** `release`: the snapshot buffer is dropped. */
    method Release()
      modifies this
      ensures snapshot == None
      ensures fullWidth == old(fullWidth) && fullHeight == old(fullHeight) && frames == old(frames)
      ensures bgColor == old(bgColor) && loopCount == old(loopCount)
    {
      snapshot := None;
    }

    /**
     * `read`: the blocks are folded in order; the frames join the decoder's
     * frames and a NETSCAPE2.0 extension replaces the loop count. Then the snapshot
     * becomes a cleared bitmap the size of the sampled canvas, unless its capacity
     * wraps negative and `ByteBuffer.allocate` raises; and the background colour is
     * taken from the global table when the screen's index lies inside it.
     */
    method Read(blocks: seq<Block>) returns (res: Result<Rect>)
      requires 1 <= sampleSize <= FrameSeqDecoders.MAX_SIDE
      modifies this
      ensures var st := ReadBlocks(blocks);
        && frames == old(frames) + st.frames
        && loopCount == (if st.loopCount.Some? then st.loopCount.value else old(loopCount))
        && (res.Err? <==> FrameSeqDecoders.BufferCapacity(st.canvasWidth * st.canvasHeight, sampleSize) < 0)
        && (res.Err? ==>
              && res.error == BadCapacity && snapshot == old(snapshot) && bgColor == old(bgColor)
              && fullWidth == old(fullWidth) && fullHeight == old(fullHeight))
        && (res.Ok? ==>
              && snapshot == Some(Filled(APNGDecoders.CanvasSide(st.canvasWidth, sampleSize), APNGDecoders.CanvasSide(st.canvasHeight, sampleSize), Transparent))
              && bgColor == (if st.globalColorTable.Some? && 0 <= st.bgColorIndex < |st.globalColorTable.value.colors|
                             then TableColor(st.globalColorTable.value.colors[st.bgColorIndex]) else old(bgColor))
              && res.value == Rect(0, 0, st.canvasWidth, st.canvasHeight)
              && fullWidth == st.canvasWidth && fullHeight == st.canvasHeight)
    {
      var canvasWidth := 0;
      var canvasHeight := 0;
      var globalColorTable: Option<ColorTable> := None;
      var graphicControlExtension: Option<GraphicControl> := None;
      var bgColorIndex := -1;
      ghost var added: seq<GifFrame> := [];
      ghost var netscape: Option<int> := None;
      for i := 0 to |blocks|
        invariant ReadBlocks(blocks[..i]) ==
          ReadState(canvasWidth, canvasHeight, globalColorTable, graphicControlExtension, bgColorIndex, added, netscape)
        invariant frames == old(frames) + added
        invariant loopCount == (if netscape.Some? then netscape.value else old(loopCount))
        invariant bgColor == old(bgColor) && snapshot == old(snapshot)
        invariant fullWidth == old(fullWidth) && fullHeight == old(fullHeight)
      {
        assert blocks[..i + 1][..i] == blocks[..i];
        match blocks[i]
        case ScreenBlock(lsd) =>
          canvasWidth := lsd.screenWidth;
          canvasHeight := lsd.screenHeight;
          if lsd.GColorTableFlag() {
            bgColorIndex := lsd.bgColorIndex;
          }
        case ColorTableBlock(table) =>
          globalColorTable := Some(table);
        case GraphicControlBlock(gce) =>
          graphicControlExtension := Some(gce);
        case ImageBlock(d) =>
          var gifFrame := NewGifFrame(globalColorTable, graphicControlExtension, d);
          frames := frames + [gifFrame];
          added := added + [gifFrame];
        case ApplicationBlock(a) =>
          if a.identifier == NETSCAPE {
            loopCount := a.loopCount;
            netscape := Some(a.loopCount);
          }
        case OtherBlock =>
      }
      assert blocks[..|blocks|] == blocks;
      if FrameSeqDecoders.BufferCapacity(canvasWidth * canvasHeight, sampleSize) < 0 {
        return Err(BadCapacity);
      }
      snapshot := Some(Filled(APNGDecoders.CanvasSide(canvasWidth, sampleSize), APNGDecoders.CanvasSide(canvasHeight, sampleSize), Transparent));
      if globalColorTable.Some? && bgColorIndex >= 0 && bgColorIndex < |globalColorTable.value.colors| {
        bgColor := TableColor(globalColorTable.value.colors[bgColorIndex]);
      }
      fullWidth := canvasWidth;
      fullHeight := canvasHeight;
      res := Ok(Rect(0, 0, canvasWidth, canvasHeight));
    }

    /**
     * `renderFrame` for frame `index`: with an empty sampled canvas or no frame
     * buffer nothing happens; otherwise the output is `Rendered` and a frame that
     * is restored to previous saves the canvas it is drawn on.
     */
    method RenderFrame(index: int, layer: Image, frameBuffer: Option<Image>) returns (out: Option<Image>)
      requires sampleSize >= 1 && 0 <= index < |frames| && snapshot.Some?
      requires frameBuffer.Some? ==>
        APNGDecoders.SameSize(snapshot.value, frameBuffer.value) && APNGDecoders.SameSize(layer, frameBuffer.value)
      modifies this
      ensures fullWidth == old(fullWidth) && fullHeight == old(fullHeight) && frames == old(frames)
      ensures bgColor == old(bgColor) && loopCount == old(loopCount)
      ensures snapshot.Some?
      ensures APNGDecoders.CanvasSide(fullWidth, sampleSize) == 0 || APNGDecoders.CanvasSide(fullHeight, sampleSize) == 0 || frameBuffer.None? ==>
        out == frameBuffer && snapshot == old(snapshot)
      ensures APNGDecoders.CanvasSide(fullWidth, sampleSize) > 0 && APNGDecoders.CanvasSide(fullHeight, sampleSize) > 0 && frameBuffer.Some? ==>
        && out == Some(Rendered(frames, index, bgColor, frameBuffer.value, old(snapshot).value, layer, sampleSize))
        && snapshot == Some(NextSnapshot(frames, index, bgColor, frameBuffer.value, old(snapshot).value, sampleSize))
      ensures frameBuffer.Some? ==> APNGDecoders.SameSize(snapshot.value, frameBuffer.value)
    {
      if APNGDecoders.CanvasSide(fullWidth, sampleSize) == 0 || APNGDecoders.CanvasSide(fullHeight, sampleSize) == 0 {
        return frameBuffer;
      }
      if frameBuffer.None? {
        return None;
      }
      var bitmap := frameBuffer.value;
      var backgroundColor := if frames[index].TransparencyFlag() then Transparent else ColorPixel(bgColor);
      if index == 0 {
        bitmap := Erase(bitmap, backgroundColor);
      } else {
        var preFrame := frames[index - 1];
        var rect := GifFrameRect(preFrame, sampleSize);
        if preFrame.disposalMethod == 2 {
          bitmap := FillRect(bitmap, rect, Transparent);
        } else if preFrame.disposalMethod == 3 {
          bitmap := FillRect(bitmap, rect, Transparent);
          bitmap := DrawClipped(bitmap, snapshot.value, rect);
        }
      }
      if frames[index].disposalMethod == 3 {
        snapshot := Some(bitmap);
      }
      bitmap := Draw(bitmap, layer);
      bitmap := DstOver(bitmap, backgroundColor);
      out := Some(bitmap);
    }
  }
}
