/**
 * The APNG decoder: `read` turns a parse result into the list of frames, and
 * `renderFrame` composites one frame on top of the previous output following the
 * disposal and blend rules of the APNG specification, keeping a snapshot of the
 * canvas for frames whose dispose op is PREVIOUS.
 */
module APNGDecoders {
  import opened Bytes
  import opened Results
  import opened Canvas
  import opened APNGChunks
  import opened FCTLChunks
  import opened APNGFrames
  import FrameSeqDecoders

  /** The fields of an acTL chunk. */
  datatype ActlFields = ActlFields(numFrames: int, numPlays: int)

  /** The fields of the IHDR chunk the decoder uses: the canvas size and the 5 trailing bytes. */
  datatype IhdrFields = IhdrFields(width: int, height: int, data: seq<Byte>)

  /** One fcTL with the image chunks that follow it. */
  datatype FrameData = FrameData(fctl: FctlFields, imageChunks: seq<Chunk>)

  /** What the parser hands the decoder. */
  datatype ParseResult = ParseResult(
    actl: Option<ActlFields>,
    ihdr: IhdrFields,
    frameDatas: seq<FrameData>,
    prefixChunks: seq<Chunk>,
    hasIdat: bool)

  /** A decoded frame: an APNG frame, or the whole still image of a plain PNG. */
  datatype Frame = AnimFrame(frame: ApngFrame) | StillFrame(width: int, height: int)

  /** `ImageInfo(loopCount, viewport, frames)`. */
  datatype ImageInfo = ImageInfo(loopCount: int, width: int, height: int, frames: seq<Frame>)

  /** One APNG frame per frame data, numbered by position. */
  function AnimFrames(result: ParseResult): (frames: seq<Frame>)
    ensures |frames| == |result.frameDatas|
    ensures forall i :: 0 <= i < |frames| ==>
      frames[i] == AnimFrame(NewFrame(i, result.frameDatas[i].fctl, result.ihdr.data,
                                      result.prefixChunks, result.frameDatas[i].imageChunks))
  {
    seq(|result.frameDatas|, i requires 0 <= i < |result.frameDatas| =>
      AnimFrame(NewFrame(i, result.frameDatas[i].fctl, result.ihdr.data,
                         result.prefixChunks, result.frameDatas[i].imageChunks)))
  }

  /** `read`: an acTL makes the image animated; a plain PNG with image data is one still frame. */
  function ReadInfo(result: ParseResult): (info: ImageInfo)
    ensures info.width == result.ihdr.width && info.height == result.ihdr.height
    ensures info.loopCount == (if result.actl.Some? then result.actl.value.numPlays else 1)
    ensures result.actl.Some? ==> info.frames == AnimFrames(result)
    ensures result.actl.None? && result.hasIdat ==> info.frames == [StillFrame(result.ihdr.width, result.ihdr.height)]
    ensures result.actl.None? && !result.hasIdat ==> info.frames == []
  {
    var frames :=
      if result.actl.Some? then AnimFrames(result)
      else if result.hasIdat then [StillFrame(result.ihdr.width, result.ihdr.height)]
      else [];
    ImageInfo(if result.actl.Some? then result.actl.value.numPlays else 1,
              result.ihdr.width, result.ihdr.height, frames)
  }

  /** The frames of an animated image are its frame datas in order, each knowing its position. */
  lemma AnimatedFramesInOrder(result: ParseResult, i: int)
    requires result.actl.Some? && 0 <= i < |result.frameDatas|
    ensures |ReadInfo(result).frames| == |result.frameDatas|
    ensures var f := ReadInfo(result).frames[i];
      && f.AnimFrame? && f.frame.index == i
      && f.frame.imageChunks == result.frameDatas[i].imageChunks
      && f.frame.prefixChunks == result.prefixChunks
      && f.frame.disposeOp == result.frameDatas[i].fctl.disposeOp
      && f.frame.blendOp == result.frameDatas[i].fctl.blendOp
  {
  }

  /**
   * A frame whose fcTL keeps the documented constraints (non-negative offsets,
   * inside the IHDR canvas) covers a rectangle inside the sampled canvas.
   */
  lemma FrameInsideCanvas(result: ParseResult, i: int, sample: int)
    requires result.actl.Some? && 0 <= i < |result.frameDatas| && sample >= 1
    requires IsInt32(result.ihdr.width) && IsInt32(result.ihdr.height)
    requires FitsCanvas(result.frameDatas[i].fctl, result.ihdr.width, result.ihdr.height)
    ensures ReadInfo(result).frames[i].AnimFrame?
    ensures var r := FrameRect(ReadInfo(result).frames[i].frame, sample);
      && 0 <= r.left <= r.right <= CanvasSide(result.ihdr.width, sample)
      && 0 <= r.top <= r.bottom <= CanvasSide(result.ihdr.height, sample)
  {
    var fctl := result.frameDatas[i].fctl;
    var f := ReadInfo(result).frames[i].frame;
    assert f.x == fctl.xOffset && f.width == fctl.width && f.y == fctl.yOffset && f.height == fctl.height;
    DivMonotone(f.x, f.x + f.width, sample);
    DivMonotone(f.x + f.width, result.ihdr.width, sample);
    DivMonotone(f.y, f.y + f.height, sample);
    DivMonotone(f.y + f.height, result.ihdr.height, sample);
  }

  lemma DivMonotone(a: int, b: int, d: int)
    requires 0 <= a <= b && d >= 1
    ensures 0 <= a / d <= b / d
  {
    assert a == (a / d) * d + a % d;
    assert b == (b / d) * d + b % d;
    if a / d > b / d {
      MulMonotone(b / d + 1, a / d, d);
    }
  }

  // ---------------------------------------------------------------------
  // Compositing.

  /** What `prepareApngBitmap` remembers from one frame to the next. */
  datatype SnapShot = SnapShot(disposeOp: int, dstRect: Rect, buffer: Image)

  /** The rectangle an APNG frame covers on the sampled canvas. */
  function FrameRect(f: ApngFrame, sample: int): Rect
    requires sample >= 1
  {
    SampledRect(f.x, f.y, f.width, f.height, sample)
  }

  /**
   * The canvas once the previous frame has been disposed of: frame 0 starts from
   * a cleared canvas; otherwise the previous frame's dispose op, as recorded, acts
   * on the previous output: PREVIOUS copies the whole snapshot back (a pixel copy
   * ignores the clip), BACKGROUND clears the recorded rectangle, anything else
   * leaves the canvas as it is.
   */
  function Disposed(s: SnapShot, f: ApngFrame, frameBuffer: Image): (c: Image)
  {
    if f.index == 0 then Erase(frameBuffer, Transparent)
    else if s.disposeOp == APNG_DISPOSE_OP_PREVIOUS then s.buffer
    else if s.disposeOp == APNG_DISPOSE_OP_BACKGROUND then FillRect(frameBuffer, s.dstRect, Transparent)
    else frameBuffer
  }

  /**
   * When the snapshot is retaken: for a frame whose dispose op is PREVIOUS, unless
   * the recorded op is PREVIOUS too and the canvas was therefore just restored from
   * it. Frame 0 always retakes it, since it starts from a cleared canvas.
   */
  predicate TakesSnapshot(s: SnapShot, f: ApngFrame)
  {
    f.disposeOp == APNG_DISPOSE_OP_PREVIOUS && (f.index == 0 || s.disposeOp != APNG_DISPOSE_OP_PREVIOUS)
  }

  /** The snapshot after the frame: its dispose op and rectangle, and the canvas if it was saved. */
  function NextSnapShot(s: SnapShot, f: ApngFrame, frameBuffer: Image, sample: int): (t: SnapShot)
    requires sample >= 1
    ensures t.disposeOp == f.disposeOp && t.dstRect == FrameRect(f, sample)
    ensures t.buffer == (if TakesSnapshot(s, f) then Disposed(s, f, frameBuffer) else s.buffer)
  {
    SnapShot(f.disposeOp, FrameRect(f, sample),
      if TakesSnapshot(s, f) then Disposed(s, f, frameBuffer) else s.buffer)
  }

  /** The canvas the frame is drawn on: disposed, and for SOURCE blending its own rectangle cleared. */
  function Prepared(s: SnapShot, f: ApngFrame, frameBuffer: Image, sample: int): (c: Image)
    requires sample >= 1
  {
    var c := Disposed(s, f, frameBuffer);
    if f.blendOp == APNG_BLEND_OP_SOURCE then FillRect(c, FrameRect(f, sample), Transparent) else c
  }

  /** The image `width` x `height`: all its rows that long. */
  predicate SameSize(a: Image, b: Image)
  {
    |a| == |b| && forall y :: 0 <= y < |a| ==> |a[y]| == |b[y]|
  }

  /** Everything the compositor holds is one canvas size. */
  predicate Fits(s: SnapShot, frameBuffer: Image, layer: Image)
  {
    SameSize(s.buffer, frameBuffer) && SameSize(layer, frameBuffer)
  }

  lemma PreparedSize(s: SnapShot, f: ApngFrame, frameBuffer: Image, layer: Image, sample: int)
    requires sample >= 1 && Fits(s, frameBuffer, layer)
    ensures SameSize(Prepared(s, f, frameBuffer, sample), frameBuffer)
    ensures SameSize(NextSnapShot(s, f, frameBuffer, sample).buffer, frameBuffer)
  {
  }

  /** `renderFrame` for an APNG frame: the frame's layer drawn over the prepared canvas. */
  function Rendered(s: SnapShot, f: ApngFrame, frameBuffer: Image, layer: Image, sample: int): (out: Image)
    requires sample >= 1 && Fits(s, frameBuffer, layer)
  {
    PreparedSize(s, f, frameBuffer, layer, sample);
    Draw(Prepared(s, f, frameBuffer, sample), layer)
  }

  // ---------------------------------------------------------------------
  // The disposal rules, as the APNG specification states them.

  /** Frame 0 is drawn on a fully transparent canvas, whatever was shown before. */
  lemma FirstFrameStartsClear(s: SnapShot, f: ApngFrame, frameBuffer: Image, sample: int)
    requires sample >= 1 && f.index == 0
    ensures var c := Prepared(s, f, frameBuffer, sample);
      SameSize(c, frameBuffer) && forall y, x :: 0 <= y < |c| && 0 <= x < |c[y]| ==> c[y][x] == Transparent
  {
  }

  /** After a frame with dispose op NONE, the next frame starts from its output. */
  lemma NoneKeepsOutput(s: SnapShot, f: ApngFrame, g: ApngFrame, frameBuffer: Image, out: Image, sample: int)
    requires sample >= 1 && f.disposeOp == APNG_DISPOSE_OP_NON && g.index != 0
    ensures Disposed(NextSnapShot(s, f, frameBuffer, sample), g, out) == out
  {
  }

  /**
   * After a frame with dispose op BACKGROUND, the next frame starts from its output
   * with the frame's rectangle cleared to transparent.
   */
  lemma BackgroundClearsRegion(s: SnapShot, f: ApngFrame, g: ApngFrame, frameBuffer: Image, out: Image, sample: int)
    requires sample >= 1 && f.disposeOp == APNG_DISPOSE_OP_BACKGROUND && g.index != 0
    ensures var c := Disposed(NextSnapShot(s, f, frameBuffer, sample), g, out);
      && SameSize(c, out)
      && forall y, x :: 0 <= y < |out| && 0 <= x < |out[y]| ==>
           c[y][x] == (if FrameRect(f, sample).Contains(x, y) then Transparent else out[y][x])
  {
  }

  /**
   * After a frame with dispose op PREVIOUS, the next frame starts from the canvas
   * as it was just before that frame was blended in, whatever the frame drew and
   * whatever its predecessors' dispose ops were.
   */
  lemma PreviousRestoresCanvas(s: SnapShot, f: ApngFrame, g: ApngFrame, frameBuffer: Image, out: Image, sample: int)
    requires sample >= 1 && f.disposeOp == APNG_DISPOSE_OP_PREVIOUS && g.index != 0
    ensures Disposed(NextSnapShot(s, f, frameBuffer, sample), g, out) == Disposed(s, f, frameBuffer)
  {
    var t := NextSnapShot(s, f, frameBuffer, sample);
    if !TakesSnapshot(s, f) {
      assert f.index != 0 && s.disposeOp == APNG_DISPOSE_OP_PREVIOUS;
      assert Disposed(s, f, frameBuffer) == s.buffer;
    }
    assert t.buffer == Disposed(s, f, frameBuffer);
  }

  /** SOURCE blending replaces the frame's rectangle: inside it only the frame's own pixels show. */
  lemma SourceReplacesRegion(s: SnapShot, f: ApngFrame, frameBuffer: Image, layer: Image, sample: int)
    requires sample >= 1 && Fits(s, frameBuffer, layer) && f.blendOp == APNG_BLEND_OP_SOURCE
    ensures var out := Rendered(s, f, frameBuffer, layer, sample);
      && SameSize(out, frameBuffer)
      && forall y, x :: 0 <= y < |out| && 0 <= x < |out[y]| && FrameRect(f, sample).Contains(x, y) ==>
           out[y][x] == layer[y][x]
  {
    PreparedSize(s, f, frameBuffer, layer, sample);
  }

  // ---------------------------------------------------------------------
  // The snapshot rule as the source writes it.

  /** The source retakes the snapshot only when the recorded op is not PREVIOUS, frame 0 included. */
  predicate TakesSnapshotAsWritten(s: SnapShot, f: ApngFrame)
  {
    f.disposeOp == APNG_DISPOSE_OP_PREVIOUS && s.disposeOp != APNG_DISPOSE_OP_PREVIOUS
  }

  function NextSnapShotAsWritten(s: SnapShot, f: ApngFrame, frameBuffer: Image, sample: int): (t: SnapShot)
    requires sample >= 1
    ensures t.disposeOp == f.disposeOp && t.dstRect == FrameRect(f, sample)
    ensures t.buffer == (if TakesSnapshotAsWritten(s, f) then Disposed(s, f, frameBuffer) else s.buffer)
  {
    SnapShot(f.disposeOp, FrameRect(f, sample),
      if TakesSnapshotAsWritten(s, f) then Disposed(s, f, frameBuffer) else s.buffer)
  }

  /**
   * When the animation loops from a last frame with dispose op PREVIOUS to a frame 0
   * whose op is PREVIOUS as well, frame 1 starts from the snapshot saved during the
   * previous loop instead of the cleared canvas frame 0 was drawn on: here a 1 x 1
   * canvas whose old snapshot holds a colour.
   */
  lemma StaleSnapshotAfterLoop()
    ensures var old_ := [[Solid(1)]];
      var s := SnapShot(APNG_DISPOSE_OP_PREVIOUS, Rect(0, 0, 1, 1), old_);
      var f0 := ApngFrame(0, 0, 0, 1, 1, 100, APNG_BLEND_OP_OVER, APNG_DISPOSE_OP_PREVIOUS, [], [], []);
      var f1 := ApngFrame(1, 0, 0, 1, 1, 100, APNG_BLEND_OP_OVER, APNG_DISPOSE_OP_NON, [], [], []);
      && Disposed(s, f0, old_) == [[Transparent]]
      && Disposed(NextSnapShotAsWritten(s, f0, old_, 1), f1, old_) == [[Solid(1)]]
      && Disposed(NextSnapShot(s, f0, old_, 1), f1, old_) == [[Transparent]]
  {
    var old_ := [[Solid(1)]];
    var s := SnapShot(APNG_DISPOSE_OP_PREVIOUS, Rect(0, 0, 1, 1), old_);
    var f0 := ApngFrame(0, 0, 0, 1, 1, 100, APNG_BLEND_OP_OVER, APNG_DISPOSE_OP_PREVIOUS, [], [], []);
    var e := Erase(old_, Transparent);
    assert e == [[Transparent]] by {
      assert |e| == 1 && |e[0]| == 1 && e[0][0] == Transparent;
      assert e[0] == [Transparent];
    }
    assert Disposed(s, f0, old_) == e;
  }

  // ---------------------------------------------------------------------
  // The decoder object.

  class APNGDecoder {
    /** The sample size the canvas is scaled down by. */
    const sampleSize: int
    /** `snapShot.disposeOp`, `snapShot.dstRect`, `snapShot.byteBuffer`. */
    var disposeOp: int
    var dstRect: Rect
    var buffer: Image

    ghost function SnapShotOf(): SnapShot
      reads this
    {
      SnapShot(disposeOp, dstRect, buffer)
    }

    /** A new decoder's snapshot records dispose op 0, an empty rectangle and no buffer. */
    constructor (sample: int)
      requires sample >= 1
      ensures sampleSize == sample
      ensures SnapShotOf() == SnapShot(0, Rect(0, 0, 0, 0), [])
    {
      sampleSize := sample;
      disposeOp := 0;
      dstRect := Rect(0, 0, 0, 0);
      buffer := [];
    }

    /**
     * `read`: the image info, and a zero-filled snapshot buffer the size of the
     * sampled canvas; a capacity that wraps negative makes `ByteBuffer.allocate`
     * raise, and the snapshot is kept.
     */
    method Read(result: ParseResult) returns (res: Result<ImageInfo>)
      requires 1 <= sampleSize <= FrameSeqDecoders.MAX_SIDE
      modifies this
      ensures var info := ReadInfo(result);
        && (res.Err? <==> FrameSeqDecoders.BufferCapacity(info.width * info.height, sampleSize) < 0)
        && (res.Err? ==> res.error == BadCapacity && buffer == old(buffer))
        && (res.Ok? ==> res.value == info && buffer == Filled(CanvasSide(info.width, sampleSize), CanvasSide(info.height, sampleSize), Transparent))
      ensures disposeOp == old(disposeOp) && dstRect == old(dstRect)
    {
      var info := ReadInfo(result);
      if FrameSeqDecoders.BufferCapacity(info.width * info.height, sampleSize) < 0 {
        return Err(BadCapacity);
      }
      buffer := Filled(CanvasSide(info.width, sampleSize), CanvasSide(info.height, sampleSize), Transparent);
      res := Ok(info);
    }

    /** `prepareApngBitmap`: the canvas the frame will be drawn on; the snapshot moves on. */
    method PrepareApngBitmap(f: ApngFrame, frameBuffer: Image) returns (bitmap: Image)
      requires sampleSize >= 1
      modifies this
      ensures bitmap == Prepared(old(SnapShotOf()), f, frameBuffer, sampleSize)
      ensures SnapShotOf() == NextSnapShot(old(SnapShotOf()), f, frameBuffer, sampleSize)
    {
      bitmap := frameBuffer;
      if f.index == 0 {
        bitmap := Erase(bitmap, Transparent);
      } else if disposeOp == APNG_DISPOSE_OP_PREVIOUS {
        bitmap := buffer;
      } else if disposeOp == APNG_DISPOSE_OP_BACKGROUND {
        bitmap := FillRect(bitmap, dstRect, Transparent);
      }
      if f.disposeOp == APNG_DISPOSE_OP_PREVIOUS {
        if f.index == 0 || disposeOp != APNG_DISPOSE_OP_PREVIOUS {
          buffer := bitmap;
        }
      }
      disposeOp := f.disposeOp;
      var rect := FrameRect(f, sampleSize);
      if f.blendOp == APNG_BLEND_OP_SOURCE {
        bitmap := FillRect(bitmap, rect, Transparent);
      }
      dstRect := rect;
    }

    /**
     * `renderFrame`: an APNG frame is drawn over its prepared canvas, a still
     * frame over a cleared bitmap; the result becomes the new frame buffer.
     * With an empty sampled canvas no bitmap is obtained and nothing changes.
     * A frame whose pixels fail to decode (`None`) throws inside `draw`, after
     * `prepareApngBitmap` has moved the snapshot on; the exception is caught and
     * the frame buffer keeps the previous frame.
     */
    method RenderFrame(info: ImageInfo, frame: Frame, layer: Option<Image>, frameBuffer: Image) returns (out: Image)
      requires sampleSize >= 1
      requires SameSize(buffer, frameBuffer) && (layer.Some? ==> SameSize(layer.value, frameBuffer))
      modifies this
      ensures SameSize(buffer, frameBuffer)
      ensures CanvasSide(info.width, sampleSize) == 0 || CanvasSide(info.height, sampleSize) == 0 ==>
        out == frameBuffer && SnapShotOf() == old(SnapShotOf())
      ensures CanvasSide(info.width, sampleSize) > 0 && CanvasSide(info.height, sampleSize) > 0 ==>
        match frame
        case AnimFrame(f) =>
          && SnapShotOf() == NextSnapShot(old(SnapShotOf()), f, frameBuffer, sampleSize)
          && out == (if layer.Some? then Rendered(old(SnapShotOf()), f, frameBuffer, layer.value, sampleSize)
                     else frameBuffer)
        case StillFrame(_, _) =>
          && SnapShotOf() == old(SnapShotOf())
          && out == (if layer.Some? then Draw(Erase(frameBuffer, Transparent), layer.value) else frameBuffer)
    {
      if CanvasSide(info.width, sampleSize) == 0 || CanvasSide(info.height, sampleSize) == 0 {
        return frameBuffer;
      }
      var drawn := if layer.Some? then layer.value else frameBuffer;
      PreparedSize(SnapShotOf(), if frame.AnimFrame? then frame.frame else DummyFrame(), frameBuffer, drawn, sampleSize);
      var bitmap := Erase(frameBuffer, Transparent);
      if frame.AnimFrame? {
        bitmap := PrepareApngBitmap(frame.frame, frameBuffer);
      }
      if layer.None? {
        return frameBuffer;
      }
      out := Draw(bitmap, layer.value);
    }
  }

  /** A frame with no effect on the size facts, for the still-frame branch. */
  function DummyFrame(): ApngFrame
  {
    ApngFrame(0, 0, 0, 0, 0, 100, APNG_BLEND_OP_OVER, APNG_DISPOSE_OP_NON, [], [], [])
  }

  /**
   * A canvas side divided by the sample size (Kotlin `Int` division); a side that
   * is not positive gives no bitmap at all, an empty one here.
   */
  function CanvasSide(side: int, sample: int): (n: nat)
    requires sample >= 1
    ensures side >= 0 ==> n == side / sample
  {
    var q := TruncDiv(side, sample);
    if q > 0 then q else 0
  }
}
