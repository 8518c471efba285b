/**
 * The playback engine every decoder shares: a state machine (IDLE, INITIALIZING,
 * RUNNING, FINISHING), a cursor of play count and frame index moved by `step`,
 * the loop policy `canStep`, and the size negotiation of the sampled canvas.
 * Work the source posts to its worker thread runs here as a separate call made
 * by the caller; the image's parsed form arrives as the result `read` would give.
 */
module FrameSeqDecoders {
  import opened Bytes
  import opened Results
  import opened BitmapPools

  datatype State = IDLE | RUNNING | INITIALIZING | FINISHING

  /** `ImageInfo`: the loop count, the viewport and each frame's duration in ms. */
  datatype ImageInfo = ImageInfo(loopCount: int, width: int, height: int, durations: seq<int>)

  /** `imageInfo`: not read yet (`null`), the `EMPTY` object a failed bounds query installs, or a read image. */
  datatype InfoSlot = NoInfo | EmptyInfo | Info(info: ImageInfo)

  function FramesOf(slot: InfoSlot): seq<int>
  {
    if slot.Info? then slot.info.durations else []
  }

  /** `numPlays`: the loop limit if one was set, else the image's loop count, else 0 (`EMPTY`'s too). */
  function NumPlays(loopLimit: Option<int>, slot: InfoSlot): int
  {
    if loopLimit.Some? then loopLimit.value else if slot.Info? then slot.info.loopCount else 0
  }

  /** The position of playback: completed plays and the index of the frame last shown. */
  datatype Cursor = Cursor(playCount: int, frameIndex: int)

  /** `canStep`'s answer. */
  function CanStepAt(running: bool, frameCount: int, numPlays: int, c: Cursor): bool
  {
    if !running || frameCount == 0 then false
    else if numPlays <= 0 then true
    else c.playCount < numPlays - 1 || (c.playCount == numPlays - 1 && c.frameIndex < frameCount - 1)
  }

  /** `step`'s move: the next frame, wrapping to frame 0 of the next play after the last. */
  function StepAt(frameCount: int, c: Cursor): Cursor
  {
    if c.frameIndex + 1 >= frameCount then Cursor(c.playCount + 1, 0) else Cursor(c.playCount, c.frameIndex + 1)
  }

  /** `m` steps from `c`. */
  function Steps(frameCount: int, c: Cursor, m: nat): Cursor
    decreases m
  {
    if m == 0 then c else Steps(frameCount, StepAt(frameCount, c), m - 1)
  }

  /** A cursor inside the frame list, or just before its first frame. */
  predicate InRange(frameCount: int, c: Cursor)
  {
    -1 <= c.frameIndex < frameCount
  }

  /** How many frames are still to be shown with `numPlays` plays of `frameCount` frames. */
  function StepsLeft(frameCount: int, numPlays: int, c: Cursor): int
  {
    (numPlays - 1 - c.playCount) * frameCount + (frameCount - 1 - c.frameIndex)
  }

  /** With a finite loop count, `canStep` holds exactly while frames remain to be shown. */
  lemma CanStepIffStepsLeft(frameCount: int, numPlays: int, c: Cursor)
    requires frameCount > 0 && numPlays > 0 && InRange(frameCount, c)
    ensures CanStepAt(true, frameCount, numPlays, c) <==> StepsLeft(frameCount, numPlays, c) > 0
  {
    if c.playCount > numPlays - 1 {
      MulAtLeast(c.playCount - (numPlays - 1), frameCount);
    } else if c.playCount < numPlays - 1 {
      MulAtLeast(numPlays - 1 - c.playCount, frameCount);
    }
  }

  lemma MulAtLeast(a: int, b: int)
    requires a >= 1 && b >= 0
    ensures a * b >= b
  {
  }

  /** Each step shows one frame more and keeps the cursor in range. */
  lemma StepShowsOneFrame(frameCount: int, numPlays: int, c: Cursor)
    requires frameCount > 0 && InRange(frameCount, c)
    ensures InRange(frameCount, StepAt(frameCount, c)) && StepAt(frameCount, c).frameIndex >= 0
    ensures StepsLeft(frameCount, numPlays, StepAt(frameCount, c)) == StepsLeft(frameCount, numPlays, c) - 1
  {
  }

  /** `canStep` holds for the first `StepsLeft` steps from `c` and fails right after them. */
  lemma {:induction false} StepsUntilFinished(frameCount: int, numPlays: int, c: Cursor, m: nat)
    requires frameCount > 0 && numPlays > 0 && InRange(frameCount, c)
    ensures InRange(frameCount, Steps(frameCount, c, m))
    ensures m < StepsLeft(frameCount, numPlays, c) ==> CanStepAt(true, frameCount, numPlays, Steps(frameCount, c, m))
    ensures m == StepsLeft(frameCount, numPlays, c) ==> !CanStepAt(true, frameCount, numPlays, Steps(frameCount, c, m))
    decreases m
  {
    if m == 0 {
      CanStepIffStepsLeft(frameCount, numPlays, c);
    } else {
      StepShowsOneFrame(frameCount, numPlays, c);
      StepsUntilFinished(frameCount, numPlays, StepAt(frameCount, c), m - 1);
    }
  }

  /** From a reset cursor, a finite loop count of `k` plays exactly `n * k` frames, then stops. */
  lemma PlaysEveryFrameOfEveryLoop(n: int, k: int)
    requires n > 0 && k > 0
    ensures forall m: nat :: m < n * k ==> CanStepAt(true, n, k, Steps(n, Cursor(0, -1), m))
    ensures !CanStepAt(true, n, k, Steps(n, Cursor(0, -1), n * k))
  {
    var c := Cursor(0, -1);
    assert StepsLeft(n, k, c) == n * k;
    forall m: nat | m < n * k
      ensures CanStepAt(true, n, k, Steps(n, c, m))
    {
      StepsUntilFinished(n, k, c, m);
    }
    StepsUntilFinished(n, k, c, n * k);
  }

  /** With a loop count of 0 or less, playback never ends. */
  lemma InfiniteLoopNeverStops(n: int, numPlays: int, c: Cursor, m: nat)
    requires n > 0 && numPlays <= 0
    ensures CanStepAt(true, n, numPlays, Steps(n, c, m))
  {
  }

  // ---------------------------------------------------------------------
  // Sizes.

  /** Kotlin's `(area / (sampleSize * sampleSize) + 1) * 4`: the bytes of a sampled ARGB canvas, plus one pixel. */
  function BufferCapacity(area: int, sample: int): int
    requires 1 <= sample <= MAX_SIDE
  {
    I32((TruncDiv(I32(area), sample * sample) + 1) * 4)
  }

  /**
   * The viewport sides this model covers: below 2^15, so that no sample size the
   * bounds allow makes `sampleSize * sampleSize` overflow an `Int`.
   */
  const MAX_SIDE: int := 0x8000

  predicate ViewportInRange(info: ImageInfo)
  {
    0 <= info.width < MAX_SIDE && 0 <= info.height < MAX_SIDE
  }

  /** A read that succeeds yields a viewport in range. */
  predicate ReadInRange(read: Result<ImageInfo>)
  {
    read.Ok? ==> ViewportInRange(read.value)
  }

  /** `getBounds`' size: the read viewport, or 0 x 0 for `EMPTY`. */
  function Viewport(slot: InfoSlot): (int, int)
  {
    if slot.Info? then (slot.info.width, slot.info.height) else (0, 0)
  }

  /**
   * For a viewport in range, the capacity wraps to a negative `Int` exactly when
   * the sampled pixel count plus one, times 4, passes `Int.MAX_VALUE`; otherwise
   * it is that product.
   */
  lemma CapacityWraps(width: int, height: int, sample: int)
    requires 1 <= sample <= MAX_SIDE && 0 <= width < MAX_SIDE && 0 <= height < MAX_SIDE
    ensures var q := (width * height) / (sample * sample);
      && (BufferCapacity(width * height, sample) < 0 <==> (q + 1) * 4 >= 0x8000_0000)
      && (BufferCapacity(width * height, sample) >= 0 ==> BufferCapacity(width * height, sample) == (q + 1) * 4)
  {
    assert 0 <= width * height <= 0x3FFF_0001 by {
      MulMono(0, width, 0, height);
      MulMono(width, MAX_SIDE - 1, height, MAX_SIDE - 1);
    }
    CapacityOfArea(width * height, sample);
  }

  /** `CapacityWraps` for any area up to that of the largest viewport in range. */
  lemma CapacityOfArea(area: int, sample: int)
    requires 1 <= sample <= MAX_SIDE && 0 <= area <= 0x3FFF_0001
    ensures var q := area / (sample * sample);
      && (BufferCapacity(area, sample) < 0 <==> (q + 1) * 4 >= 0x8000_0000)
      && (BufferCapacity(area, sample) >= 0 ==> BufferCapacity(area, sample) == (q + 1) * 4)
  {
    var sq := sample * sample;
    assert sq >= 1 by {
      MulMono(1, sample, 1, sample);
    }
    var q := area / sq;
    assert 0 <= q <= area by {
      QuotientFits(area, sq);
    }
    assert I32(area) == area by {
      I32OfSmall(area);
    }
    var u := (q + 1) * 4;
    assert BufferCapacity(area, sample) == I32(u);
    I32OfSmall(u);
  }

  /** A value below 2^32 read back as an `Int`: itself below 2^31, negative from there on. */
  lemma I32OfSmall(u: int)
    requires 0 <= u < TWO_32
    ensures I32(u) < 0 <==> u >= 0x8000_0000
    ensures I32(u) >= 0 ==> I32(u) == u
  {
  }

  /** A 30000 x 30000 viewport at sample size 1 is in range, but its capacity wraps negative. */
  lemma LargeViewportWraps()
    ensures 30000 < MAX_SIDE && BufferCapacity(30000 * 30000, 1) < 0
  {
  }

  /** A capacity that does not wrap holds the whole sampled canvas, 4 bytes a pixel, and one pixel more. */
  lemma BufferHoldsCanvas(width: int, height: int, sample: int)
    requires 1 <= sample <= MAX_SIDE && 0 <= width < MAX_SIDE && 0 <= height < MAX_SIDE
    requires BufferCapacity(width * height, sample) >= 0
    ensures BufferCapacity(width * height, sample) >= 4 * ((width / sample) * (height / sample)) + 4
  {
    var area := width * height;
    var sq := sample * sample;
    MulMono(1, sample, 1, sample);
    CapacityWraps(width, height, sample);
    PixelsFit(width, height, sample);
    DivLowerBound(area, sq, (width / sample) * (height / sample));
  }

  lemma QuotientFits(n: int, d: int)
    requires 0 <= n <= 0x4000_0000 && 1 <= d
    ensures 0 <= n / d <= n
  {
    assert n == (n / d) * d + n % d;
    if n / d > n {
      MulMono(n + 1, n / d, 1, d);
    }
  }

  /**
   * The exception `initCanvasBounds` raises on a decoder sampling by `sample`: the
   * read's own, or the `IllegalArgumentException` of allocating a wrapped capacity;
   * `None` when it installs a buffer.
   */
  function InitError(read: Result<ImageInfo>, sample: int): Option<Error>
    requires 1 <= sample <= MAX_SIDE
  {
    if read.Err? then Some(read.error)
    else if BufferCapacity(read.value.width * read.value.height, sample) < 0 then Some(BadCapacity)
    else None
  }

  /** Whether that exception gets past the `catch (e: IOException)` around the call. */
  predicate InitEscapes(read: Result<ImageInfo>, sample: int)
    requires 1 <= sample <= MAX_SIDE
  {
    InitError(read, sample).Some? && !InitError(read, sample).value.IsIOException()
  }

  // ---------------------------------------------------------------------
  // The frame buffer's position.

  /** The frame buffer: a `ByteBuffer`'s capacity and position; its limit stays at the capacity. */
  datatype FrameBuffer = FrameBuffer(capacity: int, position: int)

  function CapacityOf(buffer: Option<FrameBuffer>): Option<int>
  {
    if buffer.Some? then Some(buffer.value.capacity) else None
  }

  /** `rewind()`: back to position 0. */
  function Rewind(b: FrameBuffer): FrameBuffer
  {
    FrameBuffer(b.capacity, 0)
  }

  /**
   * `copyPixelsFromBuffer` or `copyPixelsToBuffer` with a `width` x `height` ARGB
   * bitmap: the 4 bytes a pixel from the position on, which then moves past them;
   * a buffer with fewer bytes remaining raises.
   */
  function CopyPixels(b: FrameBuffer, width: int, height: int): (r: Result<FrameBuffer>)
    ensures r.Err? <==> b.capacity - b.position < 4 * (width * height)
    ensures r.Err? ==> r.error == ShortBuffer
    ensures r.Ok? ==> r.value.capacity == b.capacity && r.value.position - b.position == 4 * (width * height)
  {
    if b.capacity - b.position < 4 * (width * height) then Err(ShortBuffer)
    else Ok(FrameBuffer(b.capacity, b.position + 4 * (width * height)))
  }

  /**
   * Where `renderFrame` leaves the buffer when it draws a `width` x `height` sampled
   * canvas. Every decoder obtains a bitmap of that size; with one, it rewinds the
   * buffer and copies the bitmap out of it and, once drawn, back into it. With an
   * empty sampled canvas there is no bitmap and the buffer is left alone.
   */
  function AfterRender(b: FrameBuffer, width: int, height: int): (r: FrameBuffer)
    ensures r.capacity == b.capacity
  {
    if width <= 0 || height <= 0 then b
    else match CopyPixels(Rewind(b), width, height)
      case Ok(copied) => copied
      case Err(_) => Rewind(b)
  }

  /**
   * The frame buffer after `step` has moved the cursor to `index`: when the frame,
   * a buffer and the image are all there, the frame is rendered into it.
   */
  function SteppedBuffer(slot: InfoSlot, index: int, sample: int, buffer: Option<FrameBuffer>): (r: Option<FrameBuffer>)
    requires sample >= 1
    ensures CapacityOf(r) == CapacityOf(buffer)
  {
    if 0 <= index < |FramesOf(slot)| && buffer.Some? && slot.Info?
    then Some(AfterRender(buffer.value, slot.info.width / sample, slot.info.height / sample))
    else buffer
  }

  /**
   * As written, `getFrameBitmap` copies the frame out of the buffer from where the
   * last render left it. At sample size 1 a render of a canvas of more than one
   * pixel leaves only the spare pixel behind it, so that copy raises; rewound first,
   * the same copy fits.
   */
  lemma AsWrittenCopyFails(width: int, height: int, position: int)
    requires 0 <= width < MAX_SIDE && 0 <= height < MAX_SIDE && width * height >= 2
    requires BufferCapacity(width * height, 1) >= 0
    ensures var rendered := AfterRender(FrameBuffer(BufferCapacity(width * height, 1), position), width, height);
      && rendered.position == 4 * (width * height)
      && CopyPixels(rendered, width, height) == Err(ShortBuffer)
      && CopyPixels(Rewind(rendered), width, height).Ok?
  {
    CapacityWraps(width, height, 1);
    assert BufferCapacity(width * height, 1) == 4 * (width * height) + 4;
  }

  /**
   * In a buffer allocated for the canvas, a render of the sampled canvas ends right
   * after its pixels, whatever the position before it.
   */
  lemma RenderEndsAfterCanvas(width: int, height: int, sample: int, b: FrameBuffer)
    requires 1 <= sample <= MAX_SIDE && 0 <= width < MAX_SIDE && 0 <= height < MAX_SIDE
    requires b.capacity == BufferCapacity(width * height, sample) >= 0
    requires width / sample > 0 && height / sample > 0
    ensures var pixels := (width / sample) * (height / sample);
      AfterRender(b, width / sample, height / sample) == FrameBuffer(b.capacity, 4 * pixels)
  {
    BufferHoldsCanvas(width, height, sample);
  }

  /** Rewound first, the sampled canvas always fits a buffer allocated for it, wherever its position was. */
  lemma RewoundCopyFits(width: int, height: int, sample: int, b: FrameBuffer)
    requires 1 <= sample <= MAX_SIDE && 0 <= width < MAX_SIDE && 0 <= height < MAX_SIDE
    requires b.capacity == BufferCapacity(width * height, sample) >= 0
    ensures CopyPixels(Rewind(b), width / sample, height / sample).Ok?
  {
    BufferHoldsCanvas(width, height, sample);
  }

  /** The sampled canvas, scaled back up, fits in the original one. */
  lemma PixelsFit(width: int, height: int, sample: int)
    requires 1 <= sample && 0 <= width && 0 <= height
    ensures 0 <= ((width / sample) * (height / sample)) * (sample * sample) <= width * height
  {
    var w := width / sample;
    var h := height / sample;
    QuotientTimes(width, sample);
    QuotientTimes(height, sample);
    MulMono(w * sample, width, h * sample, height);
    MulRearranged(w, h, sample);
    MulMono(0, w * sample, 0, h * sample);
  }

  lemma QuotientTimes(n: int, d: int)
    requires 0 <= n && 1 <= d
    ensures 0 <= (n / d) * d <= n
  {
    assert n == (n / d) * d + n % d;
  }

  lemma MulRearranged(a: int, b: int, c: int)
    ensures (a * b) * (c * c) == (a * c) * (b * c)
  {
    calc {
      (a * b) * (c * c);
      a * (b * (c * c));
      a * ((b * c) * c);
      a * (c * (b * c));
      (a * c) * (b * c);
    }
  }

  lemma MulMono(a: int, b: int, c: int, d: int)
    requires 0 <= a <= b && 0 <= c <= d
    ensures a * c <= b * d
  {
    assert a * c <= b * c;
    assert b * c <= b * d;
  }

  lemma DivLowerBound(n: int, d: int, q: int)
    requires 0 <= n && 0 < d && 0 <= q && q * d <= n
    ensures n / d >= q
  {
    var r := n / d;
    assert n == r * d + n % d;
    assert (r + 1) * d > q * d by {
      assert (r + 1) * d == r * d + d;
    }
    LessByFactor(q, r + 1, d);
  }

  lemma LessByFactor(a: int, b: int, d: int)
    requires d > 0 && a * d < b * d
    ensures a < b
  {
    assert (b - a) * d == b * d - a * d;
  }

  /** A positive power of two. */
  predicate IsPowerOfTwo(n: int)
    decreases if n > 0 then n else 0
  {
    n == 1 || (n > 1 && n % 2 == 0 && IsPowerOfTwo(n / 2))
  }

  /**
   * The doubling loop of `getDesiredSample`: the largest power of two not above
   * `ratio`, or 1 when `ratio` is below 2.
   */
  method SampleForRatio(ratio: int) returns (sample: int)
    requires ratio < 0x4000_0000
    ensures IsPowerOfTwo(sample) && 1 <= sample
    ensures (sample == 1 || sample <= ratio) && sample * 2 > ratio
    ensures sample == SampleOf(ratio)
  {
    sample := 1;
    while sample * 2 <= ratio
      invariant IsPowerOfTwo(sample) && 1 <= sample && (sample == 1 || sample <= ratio)
      decreases ratio - sample
    {
      assert (sample * 2) / 2 == sample;
      sample := sample * 2;
    }
    SampleIsUnique(sample, SampleOf(ratio), ratio);
  }

  /**
   * The sample size for a ratio, found by halving the ratio instead of doubling the
   * sample: the largest power of two not above it, 1 below 2.
   */
  function SampleOf(ratio: int): (s: int)
    ensures IsPowerOfTwo(s) && (s == 1 || s <= ratio) && s * 2 > ratio
    decreases ratio
  {
    if ratio < 2 then 1
    else
      var half := SampleOf(ratio / 2);
      assert (2 * half) / 2 == half;
      2 * half
  }

  /** `getDesiredSample`'s answer for a viewport: 1 when a desired side is 0, else by the smaller truncated ratio. */
  function DesiredSample(viewport: (int, int), desiredWidth: int, desiredHeight: int): int
  {
    if desiredWidth == 0 || desiredHeight == 0 then 1
    else SampleOf(Min(TruncDiv(viewport.0, desiredWidth), TruncDiv(viewport.1, desiredHeight)))
  }

  /** Two powers of two, each not above the other's double less one, are the same: the sample is unique. */
  lemma {:induction false} SampleIsUnique(a: int, b: int, ratio: int)
    requires IsPowerOfTwo(a) && IsPowerOfTwo(b)
    requires (a == 1 || a <= ratio) && a * 2 > ratio
    requires (b == 1 || b <= ratio) && b * 2 > ratio
    ensures a == b
    decreases if a > 0 then a else 0
  {
    PowerOfTwoAtLeastOne(a);
    PowerOfTwoAtLeastOne(b);
    if a < b {
      PowersOfTwoDouble(a, b);
    } else if b < a {
      PowersOfTwoDouble(b, a);
    }
  }

  lemma {:induction false} PowerOfTwoAtLeastOne(n: int)
    requires IsPowerOfTwo(n)
    ensures n >= 1
    decreases if n > 0 then n else 0
  {
    if n != 1 {
      PowerOfTwoAtLeastOne(n / 2);
    }
  }

  /** Of two different powers of two, the larger is at least twice the smaller. */
  lemma {:induction false} PowersOfTwoDouble(a: int, b: int)
    requires IsPowerOfTwo(a) && IsPowerOfTwo(b) && a < b
    ensures a * 2 <= b
    decreases if b > 0 then b else 0
  {
    PowerOfTwoAtLeastOne(a);
    if a == 1 {
      assert b != 1;
    } else {
      assert b != 1;
      PowersOfTwoDouble(a / 2, b / 2);
    }
  }

  function Min(a: int, b: int): int
  {
    if a <= b then a else b
  }

  lemma AbsDivAtMost(n: int, d: int)
    requires 0 <= n && d != 0
    ensures TruncDiv(n, d) <= n
  {
    if d > 0 {
      DivLowerBound(n, d, 0);
      assert n / d <= n by {
        assert n == (n / d) * d + n % d;
        if n / d > n {
          MulMono(n + 1, n / d, 1, d);
        }
      }
    }
  }

  // ---------------------------------------------------------------------
  // The frame bitmap loop as the source writes it.

  /** `getFrameBitmap`'s loop goes on while the target index is ahead and `canStep` allows it. */
  predicate FrameLoopContinues(frameCount: int, numPlays: int, index: int, c: Cursor)
  {
    c.frameIndex < index && CanStepAt(true, frameCount, numPlays, c)
  }

  /**
   * For an image that loops forever, asking for an index past the last frame never
   * returns: the cursor cycles through the frames and never reaches the index.
   */
  lemma FrameLoopNeverEndsPastLastFrame(frameCount: int, numPlays: int, index: int, playCount: int, m: nat)
    requires frameCount > 0 && numPlays <= 0 && index >= frameCount
    ensures InRange(frameCount, Steps(frameCount, Cursor(playCount, -1), m))
    ensures FrameLoopContinues(frameCount, numPlays, index, Steps(frameCount, Cursor(playCount, -1), m))
  {
    StepsStayInRange(frameCount, Cursor(playCount, -1), m);
  }

  lemma {:induction false} StepsStayInRange(frameCount: int, c: Cursor, m: nat)
    requires frameCount > 0 && InRange(frameCount, c)
    ensures InRange(frameCount, Steps(frameCount, c, m))
    decreases m
  {
    if m > 0 {
      StepsStayInRange(frameCount, StepAt(frameCount, c), m - 1);
    }
  }

  // ---------------------------------------------------------------------
  // The decoder object.

  /** What `getFrameBitmap` hands back: the index of the frame shown and the bitmap's size. */
  datatype FrameBitmap = FrameBitmap(frameIndex: int, width: int, height: int)

  /** The image `initCanvasBounds` leaves when it runs only if there are no frames yet. */
  function AfterInit(slot: InfoSlot, read: Result<ImageInfo>): InfoSlot
  {
    if |FramesOf(slot)| > 0 || read.Err? then slot else Info(read.value)
  }

  /** The image `getBounds` leaves: one not read yet is read, and an `IOException` makes it `EMPTY`. */
  function BoundsSlot(slot: InfoSlot, read: Result<ImageInfo>): InfoSlot
  {
    if slot != NoInfo then slot
    else if read.Ok? then Info(read.value)
    else if read.error.IsIOException() then EmptyInfo
    else NoInfo
  }

  /** The work `setDesiredSize` posts to the worker thread: the new sample size and whether the decoder was running. */
  datatype Resize = Resize(sample: int, wasRunning: bool)

  class FrameSeqDecoder {
    var state: State
    var frameIndex: int
    var playCount: int
    /** Set once `canStep` has found every play completed. */
    var finished: bool
    var loopLimit: Option<int>
    var imageInfo: InfoSlot
    var paused: bool
    var sampleSize: int
    /** The frame buffer, when one is allocated. */
    var frameBuffer: Option<FrameBuffer>
    const bitmapPool: BitmapPool
    /** Set for a decoder whose `getDesiredSample` is overridden to answer 1 (the GIF decoder). */
    const fixedSample: bool

    ghost predicate Valid()
      reads this, bitmapPool
    {
      && 1 <= sampleSize <= MAX_SIDE
      && (imageInfo.Info? ==> ViewportInRange(imageInfo.info))
      && bitmapPool.Valid()
    }

    predicate IsRunning()
      reads this
    {
      state == RUNNING || state == INITIALIZING
    }

    ghost function CursorOf(): Cursor
      reads this
    {
      Cursor(playCount, frameIndex)
    }

    function FrameCount(): int
      reads this
    {
      |FramesOf(imageInfo)|
    }

    /**
     * A new decoder is idle and paused, at frame -1 of play 0, with nothing read;
     * `fixedSample` says whether its sample size is always 1.
     */
    constructor (fixedSample: bool)
      ensures Valid() && fresh(bitmapPool) && bitmapPool.pool == [] && this.fixedSample == fixedSample
      ensures state == IDLE && frameIndex == -1 && playCount == 0 && !finished && paused
      ensures loopLimit == None && imageInfo == NoInfo && sampleSize == 1 && frameBuffer == None
    {
      state := IDLE;
      frameIndex := -1;
      playCount := 0;
      finished := false;
      loopLimit := None;
      imageInfo := NoInfo;
      paused := true;
      sampleSize := 1;
      frameBuffer := None;
      bitmapPool := new BitmapPool();
      this.fixedSample := fixedSample;
    }

    /** `canStep`; finding every play completed also marks the decoder `finished`. */
    method CanStep() returns (b: bool)
      modifies this
      ensures b == CanStepAt(IsRunning(), FrameCount(), NumPlays(loopLimit, imageInfo), CursorOf())
      ensures finished == (old(finished) ||
        (IsRunning() && FrameCount() > 0 && NumPlays(loopLimit, imageInfo) > 0 && !b))
      ensures state == old(state) && frameIndex == old(frameIndex) && playCount == old(playCount)
      ensures loopLimit == old(loopLimit) && imageInfo == old(imageInfo) && paused == old(paused)
      ensures sampleSize == old(sampleSize) && frameBuffer == old(frameBuffer)
    {
      if !IsRunning() || FrameCount() == 0 {
        return false;
      }
      var numPlays := NumPlays(loopLimit, imageInfo);
      if numPlays <= 0 {
        return true;
      }
      if playCount < numPlays - 1 {
        return true;
      } else if playCount == numPlays - 1 && frameIndex < FrameCount() - 1 {
        return true;
      }
      finished := true;
      return false;
    }

    /**
     * `step`: moves the cursor one frame on, renders that frame into the frame
     * buffer and returns its duration; 0 and no render when there is no frame,
     * frame buffer or image to render with.
     */
    method Step() returns (delay: int)
      requires sampleSize >= 1
      modifies this
      ensures CursorOf() == StepAt(FrameCount(), old(CursorOf()))
      ensures delay == (if 0 <= frameIndex < FrameCount() && frameBuffer.Some? && imageInfo.Info?
                        then FramesOf(imageInfo)[frameIndex] else 0)
      ensures state == old(state) && finished == old(finished) && loopLimit == old(loopLimit)
      ensures imageInfo == old(imageInfo) && paused == old(paused) && sampleSize == old(sampleSize)
      ensures frameBuffer == SteppedBuffer(imageInfo, frameIndex, sampleSize, old(frameBuffer))
    {
      frameIndex := frameIndex + 1;
      if frameIndex >= FrameCount() {
        frameIndex := 0;
        playCount := playCount + 1;
      }
      if !(0 <= frameIndex < FrameCount()) || frameBuffer.None? || !imageInfo.Info? {
        return 0;
      }
      frameBuffer := Some(AfterRender(frameBuffer.value, imageInfo.info.width / sampleSize, imageInfo.info.height / sampleSize));
      delay := FramesOf(imageInfo)[frameIndex];
    }

    /** `start`: nothing for the `EMPTY` image or when already running; otherwise INITIALIZING. */
    method Start()
      modifies this
      ensures imageInfo == EmptyInfo || old(IsRunning()) ==> state == old(state)
      ensures !(imageInfo == EmptyInfo || old(IsRunning())) ==> state == INITIALIZING
      ensures CursorOf() == old(CursorOf()) && finished == old(finished) && paused == old(paused)
      ensures imageInfo == old(imageInfo) && frameBuffer == old(frameBuffer) && sampleSize == old(sampleSize)
      ensures loopLimit == old(loopLimit)
    {
      if imageInfo == EmptyInfo || IsRunning() {
        return;
      }
      state := INITIALIZING;
    }

    /** `stop`: nothing for the `EMPTY` image or when IDLE or FINISHING; otherwise FINISHING. */
    method Stop()
      modifies this
      ensures imageInfo == EmptyInfo || old(state) == IDLE || old(state) == FINISHING ==> state == old(state)
      ensures !(imageInfo == EmptyInfo || old(state) == IDLE || old(state) == FINISHING) ==> state == FINISHING
      ensures CursorOf() == old(CursorOf()) && finished == old(finished) && paused == old(paused)
      ensures imageInfo == old(imageInfo) && frameBuffer == old(frameBuffer) && sampleSize == old(sampleSize)
      ensures loopLimit == old(loopLimit)
    {
      if imageInfo == EmptyInfo || state == IDLE || state == FINISHING {
        return;
      }
      state := FINISHING;
    }

    /**
     * `initCanvasBounds`: the image is read and installed, then a frame buffer sized
     * for the sampled canvas is allocated. A failed read changes nothing and is
     * raised; a capacity that wraps negative leaves the image installed with the
     * old buffer and raises the allocation's exception.
     */
    method InitCanvasBounds(read: Result<ImageInfo>) returns (res: Result<()>)
      requires Valid() && ReadInRange(read)
      modifies this
      ensures Valid()
      ensures res.Err? <==> InitError(read, sampleSize).Some?
      ensures res.Err? ==> res.error == InitError(read, sampleSize).value
      ensures imageInfo == (if read.Ok? then Info(read.value) else old(imageInfo))
      ensures frameBuffer == (if res.Ok? then Some(FrameBuffer(BufferCapacity(read.value.width * read.value.height, sampleSize), 0))
                              else old(frameBuffer))
      ensures res.Ok? ==>
        frameBuffer.value.capacity >= 4 * ((read.value.width / sampleSize) * (read.value.height / sampleSize)) + 4
      ensures state == old(state) && CursorOf() == old(CursorOf()) && finished == old(finished)
      ensures paused == old(paused) && sampleSize == old(sampleSize) && loopLimit == old(loopLimit)
    {
      if read.Err? {
        return Err(read.error);
      }
      imageInfo := Info(read.value);
      var capacity := BufferCapacity(read.value.width * read.value.height, sampleSize);
      if capacity < 0 {
        return Err(BadCapacity);
      }
      BufferHoldsCanvas(read.value.width, read.value.height, sampleSize);
      frameBuffer := Some(FrameBuffer(capacity, 0));
      res := Ok(());
    }

    /**
     * `getBounds`: an image not read yet is read first. An `IOException` makes it
     * `EMPTY`; any other exception gets through. The answer is the viewport's size.
     */
    method GetBounds(read: Result<ImageInfo>) returns (res: Result<(int, int)>)
      requires Valid() && ReadInRange(read)
      modifies this
      ensures Valid()
      ensures imageInfo == BoundsSlot(old(imageInfo), read)
      ensures old(imageInfo) != NoInfo ==> frameBuffer == old(frameBuffer)
      ensures old(imageInfo) == NoInfo && InitError(read, sampleSize).None? ==>
        frameBuffer == Some(FrameBuffer(BufferCapacity(read.value.width * read.value.height, sampleSize), 0))
      ensures old(imageInfo) == NoInfo && InitError(read, sampleSize).Some? ==> frameBuffer == old(frameBuffer)
      ensures res.Err? <==> old(imageInfo) == NoInfo && InitEscapes(read, sampleSize)
      ensures res.Err? ==> res.error == InitError(read, sampleSize).value
      ensures res.Ok? ==> res.value == Viewport(imageInfo)
      ensures state == old(state) && CursorOf() == old(CursorOf()) && finished == old(finished)
      ensures paused == old(paused) && sampleSize == old(sampleSize) && loopLimit == old(loopLimit)
    {
      if imageInfo == NoInfo {
        var init := InitCanvasBounds(read);
        if init.Err? {
          if !init.error.IsIOException() {
            return Err(init.error);
          }
          imageInfo := EmptyInfo;
        }
      }
      res := Ok(Viewport(imageInfo));
    }

    /**
     * `getDesiredSample`: 1 when either desired side is 0; otherwise the largest
     * power of two not above the smaller ratio of the bounds to the desired size.
     * An exception from `getBounds` gets through. A decoder with a fixed sample
     * answers 1 without reading the bounds.
     */
    method GetDesiredSample(desiredWidth: int, desiredHeight: int, read: Result<ImageInfo>) returns (res: Result<int>)
      requires Valid() && ReadInRange(read) && IsInt32(desiredWidth) && IsInt32(desiredHeight)
      modifies this
      ensures Valid()
      ensures res.Err? <==>
        !fixedSample && desiredWidth != 0 && desiredHeight != 0 && old(imageInfo) == NoInfo && InitEscapes(read, sampleSize)
      ensures res.Err? ==> res.error == InitError(read, sampleSize).value
      ensures res.Ok? ==> IsPowerOfTwo(res.value) && 1 <= res.value <= MAX_SIDE
      ensures res.Ok? ==> res.value == (if fixedSample then 1 else DesiredSample(Viewport(imageInfo), desiredWidth, desiredHeight))
      ensures imageInfo == (if fixedSample || desiredWidth == 0 || desiredHeight == 0 then old(imageInfo)
                            else BoundsSlot(old(imageInfo), read))
      ensures fixedSample || desiredWidth == 0 || desiredHeight == 0 ==> res == Ok(1) && frameBuffer == old(frameBuffer)
      ensures !fixedSample && desiredWidth != 0 && desiredHeight != 0 && res.Ok? ==>
        var (w, h) := Viewport(imageInfo);
        var ratio := Min(TruncDiv(w, desiredWidth), TruncDiv(h, desiredHeight));
        (res.value == 1 || res.value <= ratio) && res.value * 2 > ratio
      ensures old(imageInfo) != NoInfo ==> imageInfo == old(imageInfo) && frameBuffer == old(frameBuffer)
      ensures state == old(state) && CursorOf() == old(CursorOf()) && finished == old(finished)
      ensures paused == old(paused) && sampleSize == old(sampleSize) && loopLimit == old(loopLimit)
    {
      if fixedSample || desiredWidth == 0 || desiredHeight == 0 {
        return Ok(1);
      }
      var bounds :- GetBounds(read);
      var (w, h) := bounds;
      var ratio := Min(TruncDiv(w, desiredWidth), TruncDiv(h, desiredHeight));
      AbsDivAtMost(w, desiredWidth);
      var sample := SampleForRatio(ratio);
      res := Ok(sample);
    }

    /** What `innerStop` leaves: IDLE, no image, no frame buffer, every pooled bitmap recycled. */
    ghost predicate Released()
      reads this, bitmapPool, bitmapPool.pool
    {
      state == IDLE && imageInfo == NoInfo && frameBuffer == None && forall b :: b in bitmapPool.pool ==> b.isRecycled
    }

    /**
     * `innerStart`: unpaused, reading the image first if it has no frames; an
     * `IOException` from that read is ignored and any other exception gets through.
     * Then RUNNING and, unless every play is already done, the cursor goes back
     * before frame 0 and the render task runs once.
     */
    method InnerStart(read: Result<ImageInfo>, cost: int) returns (res: Result<Option<int>>)
      requires Valid() && ReadInRange(read)
      modifies this, bitmapPool.pool
      ensures Valid() && !paused && sampleSize == old(sampleSize) && loopLimit == old(loopLimit)
      ensures bitmapPool.pool == old(bitmapPool.pool)
      ensures res.Err? <==> old(FrameCount()) == 0 && InitEscapes(read, sampleSize)
      ensures res.Err? ==>
        && res.error == InitError(read, sampleSize).value
        && state == old(state) && imageInfo == AfterInit(old(imageInfo), read) && CursorOf() == old(CursorOf())
        && finished == old(finished)
      ensures res.Ok? ==>
        var info := AfterInit(old(imageInfo), read);
        var buffer := if old(FrameCount()) > 0 || InitError(read, sampleSize).Some? then old(frameBuffer)
                      else Some(FrameBuffer(BufferCapacity(read.value.width * read.value.height, sampleSize), 0));
        var n := |FramesOf(info)|;
        var plays := NumPlays(loopLimit, info);
        var c := Cursor(old(playCount), -1);
        && finished == (old(finished) || (n > 0 && plays > 0 && !CanStepAt(true, n, plays, c)))
        && if !(plays == 0 || !old(finished)) then
          && state == RUNNING && imageInfo == info && res.value == None
          && CursorOf() == old(CursorOf()) && frameBuffer == buffer
        else if CanStepAt(true, n, plays, c) then
          && state == RUNNING && imageInfo == info && CursorOf() == StepAt(n, c) && res.value.Some?
          && frameBuffer == SteppedBuffer(info, frameIndex, sampleSize, buffer)
        else if info == EmptyInfo then
          state == RUNNING && imageInfo == info && CursorOf() == c && res.value == None && frameBuffer == buffer
        else
          Released() && CursorOf() == c && res.value == None
    {
      paused := false;
      if FrameCount() == 0 {
        var init := InitCanvasBounds(read);
        if init.Err? && !init.error.IsIOException() {
          return Err(init.error);
        }
      }
      assert imageInfo == AfterInit(old(imageInfo), read);
      assert frameBuffer == if old(FrameCount()) > 0 || InitError(read, sampleSize).Some? then old(frameBuffer)
        else Some(FrameBuffer(BufferCapacity(read.value.width * read.value.height, sampleSize), 0));
      var next := StartPlayback(cost);
      res := Ok(next);
    }

    /**
     * `innerStart` once the image is read: RUNNING and, unless every play is already
     * done, the cursor goes back before frame 0 and the render task runs once.
     */
    method StartPlayback(cost: int) returns (next: Option<int>)
      requires Valid() && !paused
      modifies this, bitmapPool.pool
      ensures Valid() && !paused && sampleSize == old(sampleSize) && loopLimit == old(loopLimit)
      ensures bitmapPool.pool == old(bitmapPool.pool)
      ensures var n := old(FrameCount());
        var plays := old(NumPlays(loopLimit, imageInfo));
        var c := Cursor(old(playCount), -1);
        && finished == (old(finished) || (n > 0 && plays > 0 && !CanStepAt(true, n, plays, c)))
        && if !(plays == 0 || !old(finished)) then
          && state == RUNNING && imageInfo == old(imageInfo) && next == None
          && CursorOf() == old(CursorOf()) && frameBuffer == old(frameBuffer)
        else if CanStepAt(true, n, plays, c) then
          && state == RUNNING && imageInfo == old(imageInfo) && CursorOf() == StepAt(n, c) && next.Some?
          && frameBuffer == SteppedBuffer(old(imageInfo), frameIndex, sampleSize, old(frameBuffer))
        else if old(imageInfo) == EmptyInfo then
          && state == RUNNING && imageInfo == old(imageInfo) && CursorOf() == c && next == None
          && frameBuffer == old(frameBuffer)
        else
          Released() && CursorOf() == c && next == None
    {
      state := RUNNING;
      next := None;
      if NumPlays(loopLimit, imageInfo) == 0 || !finished {
        frameIndex := -1;
        next := RenderTask(cost);
      }
    }

    /**
     * One run of the render task: nothing while paused. When `canStep` fails the
     * decoder stops; the task runs on the worker thread, so a `stop` that goes
     * ahead runs `innerStop` at once. Otherwise one step, and the next run is due
     * after the frame's duration less the time the step took, never less than 0.
     */
    method RenderTask(cost: int) returns (next: Option<int>)
      requires Valid()
      modifies this, bitmapPool.pool
      ensures Valid() && paused == old(paused) && sampleSize == old(sampleSize) && loopLimit == old(loopLimit)
      ensures bitmapPool.pool == old(bitmapPool.pool)
      ensures finished == (old(finished) ||
        (!old(paused) && old(IsRunning()) && old(FrameCount()) > 0 && old(NumPlays(loopLimit, imageInfo)) > 0
         && !CanStepAt(old(IsRunning()), old(FrameCount()), old(NumPlays(loopLimit, imageInfo)), old(CursorOf()))))
      ensures old(paused) ==>
        && next == None && CursorOf() == old(CursorOf()) && state == old(state)
        && imageInfo == old(imageInfo) && frameBuffer == old(frameBuffer)
      ensures !old(paused) && !CanStepAt(old(IsRunning()), old(FrameCount()), old(NumPlays(loopLimit, imageInfo)), old(CursorOf())) ==>
        && next == None && CursorOf() == old(CursorOf())
        && if old(imageInfo) == EmptyInfo || old(state) == IDLE || old(state) == FINISHING
           then state == old(state) && imageInfo == old(imageInfo) && frameBuffer == old(frameBuffer)
           else Released()
      ensures !old(paused) && CanStepAt(old(IsRunning()), old(FrameCount()), old(NumPlays(loopLimit, imageInfo)), old(CursorOf())) ==>
        && CursorOf() == StepAt(old(FrameCount()), old(CursorOf()))
        && state == old(state) && imageInfo == old(imageInfo)
        && frameBuffer == SteppedBuffer(imageInfo, frameIndex, sampleSize, old(frameBuffer))
        && next.Some? && next.value >= 0
        && var d := if 0 <= frameIndex < FrameCount() && frameBuffer.Some? && imageInfo.Info?
                    then FramesOf(imageInfo)[frameIndex] else 0;
           next.value == (if d - cost >= 0 then d - cost else 0)
    {
      if paused {
        return None;
      }
      var can := CanStep();
      if !can {
        var stopping := !(imageInfo == EmptyInfo || state == IDLE || state == FINISHING);
        Stop();
        if stopping {
          InnerStop();
        }
        return None;
      }
      var delay := Step();
      next := Some(if delay - cost >= 0 then delay - cost else 0);
    }

    /** `innerStop`: the image, the frame buffer and the pool's bitmaps are released; IDLE. */
    method InnerStop()
      requires Valid()
      modifies this, bitmapPool.pool
      ensures Valid() && Released()
      ensures bitmapPool.pool == old(bitmapPool.pool)
      ensures CursorOf() == old(CursorOf()) && finished == old(finished) && paused == old(paused)
      ensures sampleSize == old(sampleSize) && loopLimit == old(loopLimit)
    {
      imageInfo := NoInfo;
      bitmapPool.Clear();
      frameBuffer := None;
      state := IDLE;
    }

    method Pause()
      modifies this
      ensures paused && state == old(state) && CursorOf() == old(CursorOf()) && finished == old(finished)
      ensures imageInfo == old(imageInfo) && frameBuffer == old(frameBuffer) && sampleSize == old(sampleSize)
      ensures loopLimit == old(loopLimit)
    {
      paused := true;
    }

    /** `resume`: unpaused; the render task is posted again (the caller runs it). */
    method Resume()
      modifies this
      ensures !paused && state == old(state) && CursorOf() == old(CursorOf()) && finished == old(finished)
      ensures imageInfo == old(imageInfo) && frameBuffer == old(frameBuffer) && sampleSize == old(sampleSize)
      ensures loopLimit == old(loopLimit)
    {
      paused := false;
    }

    /** `reset`: play 0, before frame 0, not finished. */
    method Reset()
      modifies this
      ensures CursorOf() == Cursor(0, -1) && !finished
      ensures state == old(state) && paused == old(paused) && imageInfo == old(imageInfo)
      ensures frameBuffer == old(frameBuffer) && sampleSize == old(sampleSize) && loopLimit == old(loopLimit)
    {
      playCount := 0;
      frameIndex := -1;
      finished := false;
    }

    method SetLoopLimit(limit: int)
      modifies this
      ensures loopLimit == Some(limit)
      ensures state == old(state) && paused == old(paused) && imageInfo == old(imageInfo)
      ensures CursorOf() == old(CursorOf()) && finished == old(finished)
      ensures frameBuffer == old(frameBuffer) && sampleSize == old(sampleSize)
    {
      loopLimit := Some(limit);
    }

    /** `getMemorySize`: the live pooled bitmaps and the frame buffer. */
    method GetMemorySize() returns (n: int)
      ensures n == MemorySize(bitmapPool.pool) + (if frameBuffer.Some? then frameBuffer.value.capacity else 0)
    {
      var pooled := bitmapPool.GetMemorySize();
      n := pooled + if frameBuffer.Some? then frameBuffer.value.capacity else 0;
    }

    /**
     * `setDesiredSize`: the sample size `getDesiredSample` gives for the desired size;
     * when it is the current one the answer is false. Otherwise the answer is true
     * and the resampling is posted to the worker thread, which runs it as `Resample`.
     * An exception from the bounds query gets through.
     */
    method SetDesiredSize(width: int, height: int, read: Result<ImageInfo>) returns (res: Result<bool>, task: Option<Resize>)
      requires Valid() && ReadInRange(read) && IsInt32(width) && IsInt32(height)
      modifies this
      ensures Valid()
      ensures res.Err? <==> !fixedSample && width != 0 && height != 0 && old(imageInfo) == NoInfo && InitEscapes(read, sampleSize)
      ensures res.Err? ==> res.error == InitError(read, sampleSize).value && task == None
      ensures res.Ok? ==>
        var sample := if fixedSample then 1 else DesiredSample(Viewport(imageInfo), width, height);
        && res.value == (sample != sampleSize)
        && task == (if sample != sampleSize then Some(Resize(sample, old(IsRunning()))) else None)
      ensures task.Some? ==> IsPowerOfTwo(task.value.sample) && 1 <= task.value.sample <= MAX_SIDE
      ensures imageInfo == (if fixedSample || width == 0 || height == 0 then old(imageInfo) else BoundsSlot(old(imageInfo), read))
      ensures fixedSample || old(imageInfo) != NoInfo ==> frameBuffer == old(frameBuffer)
      ensures state == old(state) && CursorOf() == old(CursorOf()) && finished == old(finished)
      ensures paused == old(paused) && sampleSize == old(sampleSize) && loopLimit == old(loopLimit)
    {
      task := None;
      var wasRunning := IsRunning();
      var sample :- GetDesiredSample(width, height, read);
      if sample == sampleSize {
        return Ok(false), None;
      }
      res, task := Ok(true), Some(Resize(sample, wasRunning));
    }

    /**
     * The block `setDesiredSize` posts: the decoder is stopped, takes the new sample
     * size and reads the image again, ignoring an `IOException` and letting any
     * other exception through; a decoder that was running is started again.
     */
    method Resample(task: Resize, read: Result<ImageInfo>, cost: int) returns (res: Result<()>)
      requires Valid() && ReadInRange(read) && 1 <= task.sample <= MAX_SIDE
      modifies this, bitmapPool.pool
      ensures Valid() && sampleSize == task.sample && loopLimit == old(loopLimit)
      ensures bitmapPool.pool == old(bitmapPool.pool)
      ensures res.Err? <==> InitEscapes(read, task.sample)
      ensures res.Err? || !task.wasRunning ==>
        CursorOf() == old(CursorOf()) && finished == old(finished) && paused == old(paused)
      ensures res.Err? ==>
        && res.error == InitError(read, task.sample).value
        && state == IDLE && imageInfo == AfterInit(NoInfo, read) && frameBuffer == None
      ensures res.Ok? && !task.wasRunning ==>
        && state == IDLE && imageInfo == AfterInit(NoInfo, read)
        && frameBuffer == (if read.Ok? then Some(FrameBuffer(BufferCapacity(read.value.width * read.value.height, task.sample), 0)) else None)
      ensures res.Ok? && task.wasRunning ==>
        var info := AfterInit(NoInfo, read);
        var buffer := if read.Ok? then Some(FrameBuffer(BufferCapacity(read.value.width * read.value.height, task.sample), 0)) else None;
        var n := |FramesOf(info)|;
        var plays := NumPlays(loopLimit, info);
        var c := Cursor(old(playCount), -1);
        && !paused
        && finished == (old(finished) || (n > 0 && plays > 0 && !CanStepAt(true, n, plays, c)))
        && if !(plays == 0 || !old(finished)) then
          state == RUNNING && imageInfo == info && CursorOf() == old(CursorOf()) && frameBuffer == buffer
        else if CanStepAt(true, n, plays, c) then
          && state == RUNNING && imageInfo == info && CursorOf() == StepAt(n, c)
          && frameBuffer == SteppedBuffer(info, frameIndex, task.sample, buffer)
        else
          Released() && CursorOf() == c
    {
      InnerStop();
      sampleSize := task.sample;
      var init := InitCanvasBounds(read);
      if init.Err? && !init.error.IsIOException() {
        return Err(init.error);
      }
      if task.wasRunning {
        var started := InnerStart(read, cost);
      }
      res := Ok(());
    }

    /**
     * `getFrameBitmap`: only an IDLE decoder renders. It steps from before frame 0
     * until the index is shown or `canStep` stops it, copies the frame buffer,
     * rewound, into a bitmap of the sampled viewport, and is stopped again. Without
     * a frame buffer it answers `null` and stays RUNNING. A failed read or
     * allocation, an empty sampled viewport and a buffer too small for the bitmap
     * raise and leave it RUNNING. An image that loops forever, asked for an index
     * past its last frame, gets `null`; the source's loop never ends for it.
     */
    method GetFrameBitmap(index: int, read: Result<ImageInfo>) returns (res: Result<Option<FrameBitmap>>)
      requires Valid() && ReadInRange(read) && index >= 0
      modifies this, bitmapPool.pool
      ensures Valid()
      ensures old(state) != IDLE ==>
        && res == Ok(None) && state == old(state) && CursorOf() == old(CursorOf())
        && imageInfo == old(imageInfo) && frameBuffer == old(frameBuffer)
        && paused == old(paused) && finished == old(finished)
      ensures old(state) == IDLE ==> !paused
      ensures res.Err? ==> state == RUNNING
      ensures old(state) == IDLE && old(FrameCount()) == 0 && InitError(read, sampleSize).Some? ==>
        res == Err(InitError(read, sampleSize).value) && CursorOf() == old(CursorOf()) && finished == old(finished)
      ensures old(state) == IDLE && !(old(FrameCount()) == 0 && InitError(read, sampleSize).Some?) ==>
        var info := AfterInit(old(imageInfo), read);
        var buffer := if old(FrameCount()) > 0 then old(frameBuffer)
                      else Some(FrameBuffer(BufferCapacity(read.value.width * read.value.height, sampleSize), 0));
        var n := |FramesOf(info)|;
        var width := Viewport(info).0 / sampleSize;
        var height := Viewport(info).1 / sampleSize;
        && finished == (old(finished) || (frameIndex < index && n > 0 && NumPlays(loopLimit, info) > 0))
        && (n > 0 && NumPlays(loopLimit, info) > 0 && index >= n ==> finished)
        && if n > 0 && NumPlays(loopLimit, info) <= 0 && index >= n then res == Ok(None) && Released()
        else if buffer.None? then res == Ok(None) && state == RUNNING
        else if width <= 0 || height <= 0 then res == Err(EmptyBitmap)
        else if buffer.value.capacity < 4 * (width * height) then res == Err(ShortBuffer)
        else
          && res == Ok(Some(FrameBitmap(frameIndex, width, height))) && Released()
          && playCount >= old(playCount) && -1 <= frameIndex <= index
          && (frameIndex == index || !CanStepAt(true, n, NumPlays(loopLimit, info), CursorOf()))
      ensures old(state) == IDLE && old(FrameCount()) == 0 && InitError(read, sampleSize).None? ==> res != Err(ShortBuffer)
    {
      if state != IDLE {
        return Ok(None);
      }
      state := RUNNING;
      paused := false;
      if FrameCount() == 0 {
        var init := InitCanvasBounds(read);
        if init.Err? {
          return Err(init.error);
        }
        RewoundCopyFits(read.value.width, read.value.height, sampleSize, frameBuffer.value);
      }
      assert imageInfo == AfterInit(old(imageInfo), read) && imageInfo.Info?;
      res := CopyFrameBitmap(index, read);
    }

    /**
     * `getFrameBitmap` once the image is there: the stepping loop, then the rewound
     * copy into a bitmap and the stop.
     */
    method CopyFrameBitmap(index: int, read: Result<ImageInfo>) returns (res: Result<Option<FrameBitmap>>)
      requires Valid() && ReadInRange(read) && index >= 0 && state == RUNNING && imageInfo.Info?
      modifies this, bitmapPool.pool
      ensures Valid() && sampleSize == old(sampleSize) && loopLimit == old(loopLimit) && paused == old(paused)
      ensures res.Err? ==> state == RUNNING
      ensures finished == (old(finished) ||
        (frameIndex < index && old(FrameCount()) > 0 && old(NumPlays(loopLimit, imageInfo)) > 0))
      ensures old(FrameCount()) > 0 && old(NumPlays(loopLimit, imageInfo)) > 0 && index >= old(FrameCount()) ==> finished
      ensures var n := old(FrameCount());
        var width := old(Viewport(imageInfo).0 / sampleSize);
        var height := old(Viewport(imageInfo).1 / sampleSize);
        if n > 0 && old(NumPlays(loopLimit, imageInfo)) <= 0 && index >= n then res == Ok(None) && Released()
        else if old(frameBuffer).None? then res == Ok(None) && state == RUNNING
        else if width <= 0 || height <= 0 then res == Err(EmptyBitmap)
        else if old(frameBuffer).value.capacity < 4 * (width * height) then res == Err(ShortBuffer)
        else
          && res == Ok(Some(FrameBitmap(frameIndex, width, height))) && Released()
          && playCount >= old(playCount) && -1 <= frameIndex <= index
          && (frameIndex == index || !CanStepAt(true, n, old(NumPlays(loopLimit, imageInfo)), CursorOf()))
    {
      var n := FrameCount();
      var numPlays := NumPlays(loopLimit, imageInfo);
      frameIndex := -1;
      if n > 0 && numPlays <= 0 && index >= n {
        InnerStop();
        return Ok(None);
      }
      StepTo(index);
      if frameBuffer.None? {
        return Ok(None);
      }
      var bounds := GetBounds(read);
      var width := bounds.value.0 / sampleSize;
      var height := bounds.value.1 / sampleSize;
      if width <= 0 || height <= 0 {
        return Err(EmptyBitmap);
      }
      var copied :- CopyPixels(Rewind(frameBuffer.value), width, height);
      frameBuffer := Some(copied);
      res := Ok(Some(FrameBitmap(frameIndex, width, height)));
      InnerStop();
    }

    /**
     * The loop of `getFrameBitmap`: steps while the index is ahead and `canStep`
     * allows, for every case in which that loop ends.
     */
    method StepTo(index: int)
      requires Valid() && state == RUNNING && index >= 0 && frameIndex == -1
      requires !(FrameCount() > 0 && NumPlays(loopLimit, imageInfo) <= 0 && index >= FrameCount())
      modifies this
      ensures Valid() && state == RUNNING && imageInfo == old(imageInfo) && CapacityOf(frameBuffer) == CapacityOf(old(frameBuffer))
      ensures sampleSize == old(sampleSize) && loopLimit == old(loopLimit) && paused == old(paused)
      ensures playCount >= old(playCount) && -1 <= frameIndex <= index
      ensures frameIndex == index || !CanStepAt(true, FrameCount(), NumPlays(loopLimit, imageInfo), CursorOf())
      ensures finished == (old(finished) || (frameIndex < index && FrameCount() > 0 && NumPlays(loopLimit, imageInfo) > 0))
      ensures FrameCount() > 0 && NumPlays(loopLimit, imageInfo) > 0 && index >= FrameCount() ==> finished
    {
      var n := FrameCount();
      var numPlays := NumPlays(loopLimit, imageInfo);
      ghost var p0 := playCount;
      var stopped := false;
      while frameIndex < index && !stopped
        invariant Valid() && state == RUNNING && imageInfo == old(imageInfo) && n == FrameCount() && numPlays == NumPlays(loopLimit, imageInfo)
        invariant CapacityOf(frameBuffer) == CapacityOf(old(frameBuffer))
        invariant sampleSize == old(sampleSize) && loopLimit == old(loopLimit) && paused == old(paused)
        invariant InRange(n, CursorOf()) || (n == 0 && frameIndex == -1)
        invariant frameIndex <= index && playCount >= p0
        invariant stopped ==> !CanStepAt(true, n, numPlays, CursorOf()) && frameIndex < index
        invariant finished == (old(finished) || (stopped && n > 0 && numPlays > 0))
        decreases !stopped, if index < n then index - frameIndex else StepsLeft(n, numPlays, CursorOf())
      {
        var can := CanStep();
        if !can {
          stopped := true;
        } else {
          if n > 0 && index >= n {
            CanStepIffStepsLeft(n, numPlays, CursorOf());
          }
          StepShowsOneFrame(n, numPlays, CursorOf());
          var _ := Step();
        }
      }
    }
  }
}
