/**
 * The drawing surface the decoders composite on, reduced to what the disposal
 * rules observe: a bitmap is a grid of abstract pixels, and the Android canvas
 * operations they use become whole-bitmap or rectangle-clipped updates. Real colour
 * arithmetic is replaced by a free "source over destination" constructor that keeps
 * only the identity laws of alpha compositing.
 */
module Canvas {
  import opened Bytes

  /** A pixel: fully transparent, an ARGB colour, or one pixel composited over another. */
  datatype Pixel = Transparent | Solid(argb: int) | Composite(top: Pixel, bottom: Pixel)

  /** `Color.TRANSPARENT` is 0; any other colour is painted as itself. */
  function ColorPixel(argb: int): (p: Pixel)
    ensures p == Transparent <==> argb == 0
  {
    if argb == 0 then Transparent else Solid(argb)
  }

  /** Source-over: a transparent layer leaves the destination, a transparent destination shows the layer. */
  function SrcOver(top: Pixel, bottom: Pixel): (p: Pixel)
    ensures top == Transparent ==> p == bottom
    ensures bottom == Transparent ==> p == top
  {
    if top == Transparent then bottom
    else if bottom == Transparent then top
    else Composite(top, bottom)
  }

  /** Rows of pixels, top row first. */
  type Image = seq<seq<Pixel>>

  /** `img` is a `width` x `height` bitmap. */
  predicate Sized(img: Image, width: nat, height: nat)
  {
    |img| == height && forall y :: 0 <= y < height ==> |img[y]| == width
  }

  /** Android's `Rect(left, top, right, bottom)`: right and bottom are exclusive. */
  datatype Rect = Rect(left: int, top: int, right: int, bottom: int) {
    predicate Contains(x: int, y: int) {
      left <= x < right && top <= y < bottom
    }
  }

  /**
   * The rectangle a frame at (`x`, `y`) of size `w` x `h` covers on a canvas
   * scaled down by `sample`: each edge divided by `sample` with Kotlin's `Int`
   * arithmetic (sums wrap, quotients round toward zero).
   */
  function SampledRect(x: int, y: int, w: int, h: int, sample: int): (r: Rect)
    requires sample >= 1
    ensures x >= 0 && y >= 0 && w >= 0 && h >= 0 && IsInt32(x + w) && IsInt32(y + h) ==>
      r == Rect(x / sample, y / sample, (x + w) / sample, (y + h) / sample)
  {
    Rect(TruncDiv(x, sample), TruncDiv(y, sample), TruncDiv(I32(x + w), sample), TruncDiv(I32(y + h), sample))
  }

  /** A bitmap of one colour: a freshly allocated one (`Transparent`, zero-filled) or `eraseColor(c)`. */
  function Filled(width: nat, height: nat, p: Pixel): (img: Image)
    ensures Sized(img, width, height)
    ensures forall y, x :: 0 <= y < height && 0 <= x < width ==> img[y][x] == p
  {
    seq(height, y => seq(width, x => p))
  }

  /** `eraseColor`, or `drawColor` without a clip: every pixel becomes `p`. */
  function Erase(img: Image, p: Pixel): (r: Image)
    ensures |r| == |img| && forall y :: 0 <= y < |img| ==> |r[y]| == |img[y]|
    ensures forall y, x :: 0 <= y < |img| && 0 <= x < |img[y]| ==> r[y][x] == p
  {
    seq(|img|, y requires 0 <= y < |img| => seq(|img[y]|, x => p))
  }

  /** `clipRect(rect); drawColor(c, CLEAR)`: the pixels inside `rect` become `p`, the rest stay. */
  function FillRect(img: Image, rect: Rect, p: Pixel): (r: Image)
    ensures |r| == |img| && forall y :: 0 <= y < |img| ==> |r[y]| == |img[y]|
    ensures forall y, x :: 0 <= y < |img| && 0 <= x < |img[y]| ==>
      r[y][x] == (if rect.Contains(x, y) then p else img[y][x])
  {
    seq(|img|, y requires 0 <= y < |img| =>
      seq(|img[y]|, x requires 0 <= x < |img[y]| => if rect.Contains(x, y) then p else img[y][x]))
  }

  /**
   * `clipRect(rect); drawBitmap(layer, 0, 0, paint)`: inside `rect` the layer is
   * composited over the bitmap; outside it nothing changes.
   */
  function DrawClipped(img: Image, layer: Image, rect: Rect): (r: Image)
    requires |layer| == |img| && forall y :: 0 <= y < |img| ==> |layer[y]| == |img[y]|
    ensures |r| == |img| && forall y :: 0 <= y < |img| ==> |r[y]| == |img[y]|
    ensures forall y, x :: 0 <= y < |img| && 0 <= x < |img[y]| ==>
      r[y][x] == (if rect.Contains(x, y) then SrcOver(layer[y][x], img[y][x]) else img[y][x])
  {
    seq(|img|, y requires 0 <= y < |img| =>
      seq(|img[y]|, x requires 0 <= x < |img[y]| =>
        if rect.Contains(x, y) then SrcOver(layer[y][x], img[y][x]) else img[y][x]))
  }

  /** A frame's own drawing: its layer composited over the whole bitmap. */
  function Draw(img: Image, layer: Image): (r: Image)
    requires |layer| == |img| && forall y :: 0 <= y < |img| ==> |layer[y]| == |img[y]|
    ensures |r| == |img| && forall y :: 0 <= y < |img| ==> |r[y]| == |img[y]|
    ensures forall y, x :: 0 <= y < |img| && 0 <= x < |img[y]| ==> r[y][x] == SrcOver(layer[y][x], img[y][x])
  {
    seq(|img|, y requires 0 <= y < |img| =>
      seq(|img[y]|, x requires 0 <= x < |img[y]| => SrcOver(layer[y][x], img[y][x])))
  }

  /** `drawColor(c, DST_OVER)`: the colour goes behind every pixel. */
  function DstOver(img: Image, p: Pixel): (r: Image)
    ensures |r| == |img| && forall y :: 0 <= y < |img| ==> |r[y]| == |img[y]|
    ensures forall y, x :: 0 <= y < |img| && 0 <= x < |img[y]| ==> r[y][x] == SrcOver(img[y][x], p)
  {
    seq(|img|, y requires 0 <= y < |img| =>
      seq(|img[y]|, x requires 0 <= x < |img[y]| => SrcOver(img[y][x], p)))
  }

  /** Clearing a region and drawing a saved bitmap into it puts the saved pixels back there. */
  lemma RestoreRect(img: Image, saved: Image, rect: Rect)
    requires |saved| == |img| && forall y :: 0 <= y < |img| ==> |saved[y]| == |img[y]|
    ensures forall y, x :: 0 <= y < |img| && 0 <= x < |img[y]| ==>
      DrawClipped(FillRect(img, rect, Transparent), saved, rect)[y][x] ==
        (if rect.Contains(x, y) then saved[y][x] else img[y][x])
  {
  }
}
