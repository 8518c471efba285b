/**
 * The WebP decoder: `read` folds the parsed top-level chunks into the canvas
 * size, the alpha flag, the ANIM chunk's background colour and loop count, and
 * one frame per ANMF chunk, falling back to a single still frame when there is
 * no ANIM chunk; `renderFrame` composites one frame on the previous output
 * following the disposal and blending methods of section 2.7 of RFC 9649.
 */
module WebPDecoders {
  import opened Bytes
  import opened Results
  import opened Canvas
  import opened ByteBufferReaders
  import opened WebPParsers
  import opened WebPFrames
  import APNGDecoders

  /** The decoder's frames: an ANMF frame, or the whole image of a file without an ANIM chunk. */
  datatype WebPFrame =
    | Animated(frame: AnimationFrame)
    | Still(width: int, height: int)

  // ---------------------------------------------------------------------
  // `read`: the fold over the chunks.

  /** The decoder's fields and the local flags of `read` as they stand after some chunks. */
  datatype ReadState = ReadState(
    canvasWidth: int, canvasHeight: int, alpha: bool, backgroundColor: int, loopCount: int,
    anim: bool, vp8x: bool, frames: seq<WebPFrame>)

  /** The state `read` starts from: the decoder's fields as they are, no flag set, no frame added. */
  function StartRead(canvasWidth: int, canvasHeight: int, alpha: bool, backgroundColor: int, loopCount: int): (s: ReadState)
    ensures !s.anim && !s.vp8x && s.frames == []
  {
    ReadState(canvasWidth, canvasHeight, alpha, backgroundColor, loopCount, false, false, [])
  }

  /** One chunk's effect: VP8X sets the canvas and the alpha flag, ANIM the colour and loop count, ANMF adds a frame. */
  function ReadStep(s: ReadState, c: Chunk): ReadState
  {
    match c.body
    case Vp8x(_, w, h) => s.(canvasWidth := w, canvasHeight := h, alpha := c.body.Alpha(), vp8x := true)
    case Anim(bg, lc) => s.(anim := true, backgroundColor := bg, loopCount := lc)
    case Anmf(_, _, _, _, _, _, _) => s.(frames := s.frames + [Animated(NewAnimationFrame(c))])
    case _ => s
  }

  /** The state after all of `cs`, chunk by chunk from the first. */
  function ReadChunks(s: ReadState, cs: seq<Chunk>): ReadState
  {
    if |cs| == 0 then s else ReadStep(ReadChunks(s, cs[..|cs| - 1]), cs[|cs| - 1])
  }

  /**
   * What `read` does after the loop: without an ANIM chunk the image is still,
   * sized by the VP8X chunk or else by the decoded bounds (`probeWidth` x
   * `probeHeight`), it gets one still frame and plays once.
   */
  function FinishRead(s: ReadState, probeWidth: int, probeHeight: int): ReadState
  {
    if s.anim then s
    else
      var sized := if s.vp8x then s else s.(canvasWidth := probeWidth, canvasHeight := probeHeight);
      sized.(frames := sized.frames + [Still(sized.canvasWidth, sized.canvasHeight)], loopCount := 1)
  }

  /** The colour disposal fills with: the background colour for an opaque image, else what it was. */
  function FillColor(s: ReadState, fillColor: int): (c: int)
    ensures !s.alpha ==> c == s.backgroundColor
    ensures s.alpha ==> c == fillColor
  {
    if !s.alpha then s.backgroundColor else fillColor
  }

  /** The number of ANMF chunks in `cs`, counted from the front. */
  function CountAnmf(cs: seq<Chunk>): nat
  {
    if |cs| == 0 then 0 else (if cs[0].body.Anmf? then 1 else 0) + CountAnmf(cs[1..])
  }

  lemma {:induction false} CountAnmfSnoc(cs: seq<Chunk>, c: Chunk)
    ensures CountAnmf(cs + [c]) == CountAnmf(cs) + (if c.body.Anmf? then 1 else 0)
  {
    if |cs| > 0 {
      assert (cs + [c])[1..] == cs[1..] + [c];
      CountAnmfSnoc(cs[1..], c);
    }
  }

  /** One frame per ANMF chunk, and every frame the loop adds is an animation frame. */
  lemma {:induction false} OneFramePerAnmf(s: ReadState, cs: seq<Chunk>)
    ensures var t := ReadChunks(s, cs);
      && |t.frames| == |s.frames| + CountAnmf(cs)
      && t.frames[..|s.frames|] == s.frames
      && forall k :: |s.frames| <= k < |t.frames| ==> t.frames[k].Animated?
  {
    if |cs| > 0 {
      var front := cs[..|cs| - 1];
      OneFramePerAnmf(s, front);
      assert cs == front + [cs[|cs| - 1]];
      CountAnmfSnoc(front, cs[|cs| - 1]);
    }
  }

  /** The frames read from a prefix of the chunks are a prefix of the frames read from all of them. */
  lemma {:induction false} FramesGrow(s: ReadState, cs: seq<Chunk>, k: nat)
    requires k <= |cs|
    ensures ReadChunks(s, cs[..k]).frames <= ReadChunks(s, cs).frames
    decreases |cs| - k
  {
    if k < |cs| {
      var front := cs[..|cs| - 1];
      assert cs[..k] == front[..k];
      FramesGrow(s, front, k);
    } else {
      assert cs[..k] == cs;
    }
  }

  /** The ANMF chunk at position `i` gives the frame after those added before it, in stream order. */
  lemma FrameOfAnmf(s: ReadState, cs: seq<Chunk>, i: int)
    requires 0 <= i < |cs| && cs[i].body.Anmf?
    ensures var n := |ReadChunks(s, cs[..i]).frames|;
      n < |ReadChunks(s, cs).frames| && ReadChunks(s, cs).frames[n] == Animated(NewAnimationFrame(cs[i]))
  {
    assert cs[..i + 1][..i] == cs[..i];
    FramesGrow(s, cs, i + 1);
  }

  /** The last VP8X chunk decides the canvas size and the alpha flag. */
  lemma {:induction false} LastVp8xWins(s: ReadState, cs: seq<Chunk>, i: int)
    requires 0 <= i < |cs| && cs[i].body.Vp8x?
    requires forall j :: i < j < |cs| ==> !cs[j].body.Vp8x?
    ensures var t := ReadChunks(s, cs);
      && t.vp8x
      && t.canvasWidth == cs[i].body.canvasWidth && t.canvasHeight == cs[i].body.canvasHeight
      && t.alpha == cs[i].body.Alpha()
  {
    if i < |cs| - 1 {
      var front := cs[..|cs| - 1];
      LastVp8xWins(s, front, i);
    }
  }

  /** Without a VP8X chunk the canvas size and the alpha flag stay as they were. */
  lemma {:induction false} NoVp8xKeeps(s: ReadState, cs: seq<Chunk>)
    requires forall j :: 0 <= j < |cs| ==> !cs[j].body.Vp8x?
    ensures var t := ReadChunks(s, cs);
      t.vp8x == s.vp8x && t.canvasWidth == s.canvasWidth && t.canvasHeight == s.canvasHeight && t.alpha == s.alpha
  {
    if |cs| > 0 {
      NoVp8xKeeps(s, cs[..|cs| - 1]);
    }
  }

  /** The last ANIM chunk decides the background colour and the loop count. */
  lemma {:induction false} LastAnimWins(s: ReadState, cs: seq<Chunk>, i: int)
    requires 0 <= i < |cs| && cs[i].body.Anim?
    requires forall j :: i < j < |cs| ==> !cs[j].body.Anim?
    ensures var t := ReadChunks(s, cs);
      t.anim && t.backgroundColor == cs[i].body.backgroundColor && t.loopCount == cs[i].body.loopCount
  {
    if i < |cs| - 1 {
      var front := cs[..|cs| - 1];
      LastAnimWins(s, front, i);
    }
  }

  /** Without an ANIM chunk the colour, the loop count and the animation flag stay as they were. */
  lemma {:induction false} NoAnimKeeps(s: ReadState, cs: seq<Chunk>)
    requires forall j :: 0 <= j < |cs| ==> !cs[j].body.Anim?
    ensures var t := ReadChunks(s, cs);
      t.anim == s.anim && t.backgroundColor == s.backgroundColor && t.loopCount == s.loopCount
  {
    if |cs| > 0 {
      NoAnimKeeps(s, cs[..|cs| - 1]);
    }
  }

  /**
   * A file without an ANIM chunk is a still image: after its ANMF frames, if
   * any, comes one still frame the size of the canvas, which is the VP8X
   * chunk's when there is one and the decoded bounds otherwise; it plays once.
   */
  lemma StillImage(s: ReadState, cs: seq<Chunk>, probeWidth: int, probeHeight: int)
    requires !s.anim && !s.vp8x
    requires forall j :: 0 <= j < |cs| ==> !cs[j].body.Anim?
    ensures var t := ReadChunks(s, cs);
      var u := FinishRead(t, probeWidth, probeHeight);
      && |t.frames| == |s.frames| + CountAnmf(cs)
      && |u.frames| == |t.frames| + 1
      && u.frames[..|t.frames|] == t.frames
      && u.frames[|t.frames|] == Still(u.canvasWidth, u.canvasHeight)
      && u.loopCount == 1
      && ((forall j :: 0 <= j < |cs| ==> !cs[j].body.Vp8x?) ==>
            u.canvasWidth == probeWidth && u.canvasHeight == probeHeight)
      && (u.canvasWidth, u.canvasHeight) == (if t.vp8x then (t.canvasWidth, t.canvasHeight) else (probeWidth, probeHeight))
  {
    NoAnimKeeps(s, cs);
    OneFramePerAnmf(s, cs);
    if forall j :: 0 <= j < |cs| ==> !cs[j].body.Vp8x? {
      NoVp8xKeeps(s, cs);
    }
  }

  /** With an ANIM chunk the frames are the ANMF frames alone and the loop count is the last ANIM chunk's. */
  lemma AnimatedImage(s: ReadState, cs: seq<Chunk>, i: int, probeWidth: int, probeHeight: int)
    requires 0 <= i < |cs| && cs[i].body.Anim?
    requires forall j :: i < j < |cs| ==> !cs[j].body.Anim?
    ensures var u := FinishRead(ReadChunks(s, cs), probeWidth, probeHeight);
      && |u.frames| == |s.frames| + CountAnmf(cs)
      && (forall k :: |s.frames| <= k < |u.frames| ==> u.frames[k].Animated?)
      && u.loopCount == cs[i].body.loopCount && u.backgroundColor == cs[i].body.backgroundColor
  {
    LastAnimWins(s, cs, i);
    OneFramePerAnmf(s, cs);
  }

  // ---------------------------------------------------------------------
  // Compositing, as section 2.7 of RFC 9649 describes it.

  /** The width of a decoded bitmap: the length of its first row. */
  function BitmapWidth(b: Image): nat
  {
    if |b| == 0 then 0 else |b[0]|
  }

  /** Every row of the bitmap has the same length. */
  predicate Rectangular(b: Image)
  {
    forall y :: 0 <= y < |b| ==> |b[y]| == BitmapWidth(b)
  }

  /** A decoded bitmap placed with its top-left corner at (`left`, `top`) on a canvas shaped like `like`. */
  function Placed(b: Image, left: int, top: int, like: Image): (r: Image)
    ensures APNGDecoders.SameSize(r, like)
    ensures forall y, x :: 0 <= y < |like| && 0 <= x < |like[y]| ==>
      r[y][x] == (if top <= y < top + |b| && left <= x < left + |b[y - top]| then b[y - top][x - left] else Transparent)
  {
    seq(|like|, y requires 0 <= y < |like| =>
      seq(|like[y]|, x requires 0 <= x < |like[y]| =>
        if top <= y < top + |b| && left <= x < left + |b[y - top]| then b[y - top][x - left] else Transparent))
  }

  /**
   * The rectangle disposal fills: the frame's offset is twice the stored value,
   * and every edge is divided by the sample size.
   */
  function DisposalRect(f: AnimationFrame, sample: int): Rect
    requires sample >= 1
  {
    SampledRect(2 * f.x, 2 * f.y, f.width, f.height, sample)
  }

  /** `dstRect`: the decoded bitmap at the frame's sampled offset, at its own size. */
  function DrawRect(f: AnimationFrame, sample: int, b: Image): (r: Rect)
    requires sample >= 1
    ensures r.right - r.left == BitmapWidth(b) && r.bottom - r.top == |b|
  {
    var left := TruncDiv(2 * f.x, sample);
    var top := TruncDiv(2 * f.y, sample);
    Rect(left, top, left + BitmapWidth(b), top + |b|)
  }

  /**
   * The canvas frame `i` is drawn on: frame 0 starts from a cleared canvas,
   * transparent when the image has alpha and the background colour otherwise;
   * after an animation frame that is disposed, its rectangle is filled with the
   * fill colour; otherwise the previous output is kept.
   */
  function Disposed(frames: seq<WebPFrame>, i: int, alpha: bool, backgroundColor: int, fillColor: int, frameBuffer: Image, sample: int): (c: Image)
    requires 0 <= i < |frames| && sample >= 1
    ensures APNGDecoders.SameSize(c, frameBuffer)
  {
    if i == 0 then Erase(frameBuffer, if alpha then Transparent else ColorPixel(backgroundColor))
    else
      match frames[i - 1]
      case Animated(pre) =>
        if pre.disposalMethod then FillRect(frameBuffer, DisposalRect(pre, sample), ColorPixel(fillColor)) else frameBuffer
      case Still(_, _) => frameBuffer
  }

  /**
   * A frame's own drawing on `c`: nothing when its image did not decode; an
   * animation frame that does not blend replaces the pixels of its rectangle
   * (`SRC`), one that blends goes over them (`SRC_OVER`); a still frame goes over
   * the canvas from its top-left corner.
   */
  function Drawn(f: WebPFrame, c: Image, bitmap: Option<Image>, sample: int): (r: Image)
    requires sample >= 1
    ensures APNGDecoders.SameSize(r, c)
  {
    match bitmap
    case None => c
    case Some(b) =>
      match f
      case Animated(a) =>
        var dst := DrawRect(a, sample, b);
        var placed := Placed(b, dst.left, dst.top, c);
        if a.blendingMethod then Draw(FillRect(c, dst, Transparent), placed) else Draw(c, placed)
      case Still(_, _) => Draw(c, Placed(b, 0, 0, c))
  }

  /** `renderFrame`: frame `i` drawn on the disposed canvas. */
  function Rendered(frames: seq<WebPFrame>, i: int, alpha: bool, backgroundColor: int, fillColor: int,
                    frameBuffer: Image, bitmap: Option<Image>, sample: int): (out: Image)
    requires 0 <= i < |frames| && sample >= 1
    ensures APNGDecoders.SameSize(out, frameBuffer)
  {
    Drawn(frames[i], Disposed(frames, i, alpha, backgroundColor, fillColor, frameBuffer, sample), bitmap, sample)
  }

  /** Frame 0 is drawn on a canvas of one colour, whatever was shown before: transparent exactly when the image has alpha or no background. */
  lemma FirstFrameStartsCleared(frames: seq<WebPFrame>, alpha: bool, backgroundColor: int, fillColor: int, frameBuffer: Image, sample: int)
    requires |frames| > 0 && sample >= 1
    ensures var c := Disposed(frames, 0, alpha, backgroundColor, fillColor, frameBuffer, sample);
      forall y, x :: 0 <= y < |c| && 0 <= x < |c[y]| ==>
        c[y][x] == (if alpha then Transparent else ColorPixel(backgroundColor)) &&
        (c[y][x] == Transparent <==> alpha || backgroundColor == 0)
  {
  }

  /** A disposed animation frame's rectangle is filled with the fill colour; the rest of the output is kept. */
  lemma DisposedToBackground(frames: seq<WebPFrame>, i: int, alpha: bool, backgroundColor: int, fillColor: int, out: Image, sample: int)
    requires 1 <= i < |frames| && sample >= 1
    requires frames[i - 1].Animated? && frames[i - 1].frame.disposalMethod
    ensures var c := Disposed(frames, i, alpha, backgroundColor, fillColor, out, sample);
      forall y, x :: 0 <= y < |out| && 0 <= x < |out[y]| ==>
        c[y][x] == (if DisposalRect(frames[i - 1].frame, sample).Contains(x, y) then ColorPixel(fillColor) else out[y][x])
  {
  }

  /** A frame that is not disposed, and a still frame, leave the output for the next frame as it is. */
  lemma LeftInPlace(frames: seq<WebPFrame>, i: int, alpha: bool, backgroundColor: int, fillColor: int, out: Image, sample: int)
    requires 1 <= i < |frames| && sample >= 1
    requires frames[i - 1].Still? || !frames[i - 1].frame.disposalMethod
    ensures Disposed(frames, i, alpha, backgroundColor, fillColor, out, sample) == out
  {
  }

  /**
   * An animation frame that does not blend replaces its rectangle: there the
   * output is its bitmap's pixel, transparent ones included; elsewhere the
   * canvas is kept.
   */
  lemma NoBlendReplaces(f: AnimationFrame, c: Image, b: Image, sample: int)
    requires sample >= 1 && f.blendingMethod && Rectangular(b)
    ensures var out := Drawn(Animated(f), c, Some(b), sample);
      var dst := DrawRect(f, sample, b);
      forall y, x :: 0 <= y < |c| && 0 <= x < |c[y]| ==>
        out[y][x] == (if dst.Contains(x, y) then b[y - dst.top][x - dst.left] else c[y][x])
  {
  }

  /**
   * An animation frame that blends goes over its rectangle: a transparent pixel
   * of its bitmap shows the canvas, and outside the rectangle nothing changes.
   */
  lemma BlendGoesOver(f: AnimationFrame, c: Image, b: Image, sample: int)
    requires sample >= 1 && !f.blendingMethod && Rectangular(b)
    ensures var out := Drawn(Animated(f), c, Some(b), sample);
      var dst := DrawRect(f, sample, b);
      forall y, x :: 0 <= y < |c| && 0 <= x < |c[y]| ==>
        out[y][x] == (if dst.Contains(x, y) then SrcOver(b[y - dst.top][x - dst.left], c[y][x]) else c[y][x])
  {
  }

  /** A still frame's bitmap goes over the canvas from the top-left corner. */
  lemma StillGoesOver(w: int, h: int, c: Image, b: Image, sample: int)
    requires sample >= 1 && Rectangular(b)
    ensures var out := Drawn(Still(w, h), c, Some(b), sample);
      forall y, x :: 0 <= y < |c| && 0 <= x < |c[y]| ==>
        out[y][x] == (if y < |b| && x < BitmapWidth(b) then SrcOver(b[y][x], c[y][x]) else c[y][x])
  {
  }

  /** A frame whose image does not decode leaves the disposed canvas as the output. */
  lemma FailedDecodeDrawsNothing(frames: seq<WebPFrame>, i: int, alpha: bool, backgroundColor: int, fillColor: int, frameBuffer: Image, sample: int)
    requires 0 <= i < |frames| && sample >= 1
    ensures Rendered(frames, i, alpha, backgroundColor, fillColor, frameBuffer, None, sample) ==
      Disposed(frames, i, alpha, backgroundColor, fillColor, frameBuffer, sample)
  {
  }

  // ---------------------------------------------------------------------
  // The decoder object.

  class WebPDecoder {
    /** The sample size the canvas is scaled down by. */
    const sampleSize: int
    /** `fullRect`'s size, as `read` returned it. */
    var fullWidth: int
    var fullHeight: int
    var frames: seq<WebPFrame>
    var loopCount: int
    var canvasWidth: int
    var canvasHeight: int
    var alpha: bool
    var backgroundColor: int
    /** The colour of `mTransparentFillPaint`. */
    var fillColor: int

    constructor (sample: int)
      requires sample >= 1
      ensures sampleSize == sample && frames == [] && loopCount == 0
      ensures canvasWidth == 0 && canvasHeight == 0 && !alpha && backgroundColor == 0 && fillColor == 0
      ensures fullWidth == 0 && fullHeight == 0
    {
      sampleSize := sample;
      fullWidth := 0;
      fullHeight := 0;
      frames := [];
      loopCount := 0;
      canvasWidth := 0;
      canvasHeight := 0;
      alpha := false;
      backgroundColor := 0;
      fillColor := 0;
    }

    /** `getLoopCount`. */
    method GetLoopCount() returns (n: int)
      ensures n == loopCount
    {
      n := loopCount;
    }

    /** The chunk loop of `read`, from the decoder's fields to the fold's result. */
    method ReadLoop(chunks: seq<Chunk>) returns (anim: bool, vp8x: bool)
      modifies this
      ensures var st := ReadChunks(StartRead(old(canvasWidth), old(canvasHeight), old(alpha), old(backgroundColor), old(loopCount)), chunks);
        && canvasWidth == st.canvasWidth && canvasHeight == st.canvasHeight && alpha == st.alpha
        && backgroundColor == st.backgroundColor && loopCount == st.loopCount
        && anim == st.anim && vp8x == st.vp8x && frames == old(frames) + st.frames
      ensures fillColor == old(fillColor) && fullWidth == old(fullWidth) && fullHeight == old(fullHeight)
    {
      ghost var start := StartRead(canvasWidth, canvasHeight, alpha, backgroundColor, loopCount);
      anim := false;
      vp8x := false;
      ghost var added: seq<WebPFrame> := [];
      for i := 0 to |chunks|
        invariant ReadChunks(start, chunks[..i]) ==
          ReadState(canvasWidth, canvasHeight, alpha, backgroundColor, loopCount, anim, vp8x, added)
        invariant frames == old(frames) + added
        invariant fillColor == old(fillColor) && fullWidth == old(fullWidth) && fullHeight == old(fullHeight)
      {
        assert chunks[..i + 1][..i] == chunks[..i];
        var chunk := chunks[i];
        match chunk.body
        case Vp8x(_, w, h) =>
          canvasWidth := w;
          canvasHeight := h;
          alpha := chunk.body.Alpha();
          vp8x := true;
        case Anim(bg, lc) =>
          anim := true;
          backgroundColor := bg;
          loopCount := lc;
        case Anmf(_, _, _, _, _, _, _) =>
          var frame := Animated(NewAnimationFrame(chunk));
          frames := frames + [frame];
          added := added + [frame];
        case _ =>
      }
      assert chunks[..|chunks|] == chunks;
    }

    /**
     * `read`: the stream is parsed, and a stream that does not parse leaves the
     * decoder as it was; otherwise the chunks are folded in order, a still
     * image gets its one frame, an opaque image fills disposed frames with its
     * background colour, and the canvas bounds are returned. `probeWidth` and
     * `probeHeight` are the bounds the platform decoder reports for the stream.
     */
    method Read(r: ByteBufferReader, probeWidth: int, probeHeight: int) returns (res: Result<Rect>)
      requires r.Valid()
      modifies this, r
      ensures r.Valid()
      ensures var parsed := ParseAt(r.data, old(r.pos));
        && (parsed.Err? ==>
              && res == Err(parsed.error)
              && frames == old(frames) && loopCount == old(loopCount)
              && canvasWidth == old(canvasWidth) && canvasHeight == old(canvasHeight) && alpha == old(alpha)
              && backgroundColor == old(backgroundColor) && fillColor == old(fillColor)
              && fullWidth == old(fullWidth) && fullHeight == old(fullHeight))
        && (parsed.Ok? ==>
              var st := FinishRead(ReadChunks(StartRead(old(canvasWidth), old(canvasHeight), old(alpha), old(backgroundColor), old(loopCount)),
                                              parsed.value), probeWidth, probeHeight);
              && res == Ok(Rect(0, 0, st.canvasWidth, st.canvasHeight))
              && frames == old(frames) + st.frames && loopCount == st.loopCount
              && canvasWidth == st.canvasWidth && canvasHeight == st.canvasHeight && alpha == st.alpha
              && backgroundColor == st.backgroundColor && fillColor == FillColor(st, old(fillColor))
              && fullWidth == st.canvasWidth && fullHeight == st.canvasHeight)
    {
      var chunks :- Parse(r);
      res := ReadChunkList(chunks, probeWidth, probeHeight);
    }

    /** What `read` does once the stream has parsed to `chunks`. */
    method ReadChunkList(chunks: seq<Chunk>, probeWidth: int, probeHeight: int) returns (res: Result<Rect>)
      modifies this
      ensures var st := FinishRead(ReadChunks(StartRead(old(canvasWidth), old(canvasHeight), old(alpha), old(backgroundColor), old(loopCount)),
                                              chunks), probeWidth, probeHeight);
        && res == Ok(Rect(0, 0, st.canvasWidth, st.canvasHeight))
        && frames == old(frames) + st.frames && loopCount == st.loopCount
        && canvasWidth == st.canvasWidth && canvasHeight == st.canvasHeight && alpha == st.alpha
        && backgroundColor == st.backgroundColor && fillColor == FillColor(st, old(fillColor))
        && fullWidth == st.canvasWidth && fullHeight == st.canvasHeight
    {
      var anim, vp8x := ReadLoop(chunks);
      if !anim {
        if !vp8x {
          canvasWidth := probeWidth;
          canvasHeight := probeHeight;
        }
        frames := frames + [Still(canvasWidth, canvasHeight)];
        loopCount := 1;
      }
      if !alpha {
        fillColor := backgroundColor;
      }
      fullWidth := canvasWidth;
      fullHeight := canvasHeight;
      res := Ok(Rect(0, 0, canvasWidth, canvasHeight));
    }

    /**
     * `renderFrame` for frame `index`, where `bitmap` is the frame's decoded
     * image if it decoded: with an empty sampled canvas nothing happens, without
     * a frame buffer there is no output, and otherwise the output is `Rendered`.
     */
    method RenderFrame(index: int, bitmap: Option<Image>, frameBuffer: Option<Image>) returns (out: Option<Image>)
      requires sampleSize >= 1 && 0 <= index < |frames|
      ensures APNGDecoders.CanvasSide(fullWidth, sampleSize) == 0 || APNGDecoders.CanvasSide(fullHeight, sampleSize) == 0 ==>
        out == frameBuffer
      ensures APNGDecoders.CanvasSide(fullWidth, sampleSize) > 0 && APNGDecoders.CanvasSide(fullHeight, sampleSize) > 0 ==>
        out == (if frameBuffer.None? then None
                else Some(Rendered(frames, index, alpha, backgroundColor, fillColor, frameBuffer.value, bitmap, sampleSize)))
    {
      if APNGDecoders.CanvasSide(fullWidth, sampleSize) == 0 || APNGDecoders.CanvasSide(fullHeight, sampleSize) == 0 {
        return frameBuffer;
      }
      if frameBuffer.None? {
        return None;
      }
      var canvas := frameBuffer.value;
      if index == 0 {
        canvas := Erase(canvas, if alpha then Transparent else ColorPixel(backgroundColor));
      } else {
        var preFrame := frames[index - 1];
        if preFrame.Animated? && preFrame.frame.disposalMethod {
          canvas := FillRect(canvas, DisposalRect(preFrame.frame, sampleSize), ColorPixel(fillColor));
        }
      }
      out := Some(Drawn(frames[index], canvas, bitmap, sampleSize));
    }
  }
}
