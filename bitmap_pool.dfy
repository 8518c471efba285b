/**
 * The decoders' bitmap pool: bitmaps handed back by `recycle` are reused by
 * `obtain` when one is large enough, first come first served. The pool is an
 * insertion-ordered set of bitmap objects; pixels are not modelled, only each
 * bitmap's size, its allocation and whether it has been recycled.
 */
module BitmapPools {

  /** Bytes per pixel of an `ARGB_8888` bitmap. */
  const BYTES_PER_PIXEL: int := 4

  class Bitmap {
    var width: int
    var height: int
    /** The bytes allocated for the pixels; reconfiguring never changes it. */
    const allocationByteCount: int
    var isRecycled: bool

    /** `Bitmap.createBitmap(width, height, ARGB_8888)`. */
    constructor (w: int, h: int)
      requires w > 0 && h > 0
      ensures width == w && height == h && !isRecycled
      ensures allocationByteCount == w * h * BYTES_PER_PIXEL
    {
      width := w;
      height := h;
      allocationByteCount := w * h * BYTES_PER_PIXEL;
      isRecycled := false;
    }
  }

  /**
   * The allocation sizes the reuse test sees, in pool order: `allocationByteCount`
   * reads 0 on a recycled bitmap, as `getMemorySize` counts it.
   */
  function Allocations(pool: seq<Bitmap>): (a: seq<int>)
    reads set b | b in pool
    ensures |a| == |pool|
    ensures forall i :: 0 <= i < |pool| ==> a[i] == if pool[i].isRecycled then 0 else pool[i].allocationByteCount
  {
    seq(|pool|, i requires 0 <= i < |pool| reads pool => if pool[i].isRecycled then 0 else pool[i].allocationByteCount)
  }

  /** No recycled bitmap is ever reused: its allocation reads 0, which holds no request. */
  lemma RecycledNeverReused(pool: seq<Bitmap>, width: int, height: int)
    requires FirstFit(Allocations(pool), width, height) < |pool|
    ensures !pool[FirstFit(Allocations(pool), width, height)].isRecycled
  {
    var i := FirstFit(Allocations(pool), width, height);
    assert width * height > 0 by {
      assert width > 0 && height > 0;
    }
  }

  /** A bitmap can be reused for `width` x `height` when both are positive and its allocation holds them. */
  predicate Reusable(allocation: int, width: int, height: int)
  {
    width > 0 && height > 0 && allocation >= width * height * BYTES_PER_PIXEL
  }

  /** The position of the first reusable allocation, or `|allocs|` when there is none. */
  function FirstFit(allocs: seq<int>, width: int, height: int): (i: nat)
    ensures i <= |allocs|
    ensures i < |allocs| ==> Reusable(allocs[i], width, height)
    ensures forall j :: 0 <= j < i ==> !Reusable(allocs[j], width, height)
  {
    if |allocs| == 0 then 0
    else if Reusable(allocs[0], width, height) then 0
    else 1 + FirstFit(allocs[1..], width, height)
  }

  /** A reused bitmap has room for the request, so reconfiguring it to that size succeeds. */
  lemma ReusedFits(allocs: seq<int>, width: int, height: int)
    requires FirstFit(allocs, width, height) < |allocs|
    ensures width > 0 && height > 0
    ensures allocs[FirstFit(allocs, width, height)] >= width * height * BYTES_PER_PIXEL
  {
  }

  // ---------------------------------------------------------------------
  // The reuse test as the source writes it.

  /** The source compares the allocation, in bytes, with `width * height`, a pixel count. */
  predicate ReusableAsWritten(allocation: int, width: int, height: int)
  {
    allocation >= width * height
  }

  function FirstFitAsWritten(allocs: seq<int>, width: int, height: int): (i: nat)
    ensures i <= |allocs|
    ensures i < |allocs| ==> ReusableAsWritten(allocs[i], width, height)
    ensures forall j :: 0 <= j < i ==> !ReusableAsWritten(allocs[j], width, height)
  {
    if |allocs| == 0 then 0
    else if ReusableAsWritten(allocs[0], width, height) then 0
    else 1 + FirstFitAsWritten(allocs[1..], width, height)
  }

  /**
   * Two ways the source's test goes wrong: a pooled 1 x 1 bitmap (4 bytes) is
   * picked for a 2 x 2 request although it holds a quarter of it, and an empty
   * 0 x 5 request gets a pooled bitmap instead of the documented `null`.
   */
  lemma AsWrittenReusesTooSmall()
    ensures FirstFitAsWritten([4], 2, 2) == 0 && 4 < 2 * 2 * BYTES_PER_PIXEL
    ensures FirstFit([4], 2, 2) == 1
    ensures FirstFitAsWritten([4], 0, 5) == 0
    ensures FirstFit([4], 0, 5) == 1
  {
  }

  // ---------------------------------------------------------------------
  // The pool.

  class BitmapPool {
    /** `pool`: a set, kept in insertion order. */
    var pool: seq<Bitmap>

    ghost predicate Valid()
      reads this
    {
      forall i, j :: 0 <= i < j < |pool| ==> pool[i] != pool[j]
    }

    constructor ()
      ensures Valid() && pool == []
    {
      pool := [];
    }

    /**
     * `obtain`: the first pooled bitmap with room for the request leaves the pool,
     * resized to the request; with none, a new bitmap if the request is not empty,
     * else `null`.
     */
    method Obtain(width: int, height: int) returns (b: Bitmap?)
      requires Valid()
      modifies this, pool
      ensures Valid()
      ensures var i := old(FirstFit(Allocations(pool), width, height));
        && (i < |old(pool)| ==>
              && b == old(pool)[i]
              && pool == old(pool)[..i] + old(pool)[i + 1..]
              && b.width == width && b.height == height && !b.isRecycled)
        && (i == |old(pool)| ==> pool == old(pool))
        && (i == |old(pool)| && width > 0 && height > 0 ==>
              b != null && fresh(b) && b.width == width && b.height == height && !b.isRecycled)
        && (i == |old(pool)| && !(width > 0 && height > 0) ==> b == null)
      ensures forall c :: c in old(pool) && c != b ==>
        c.width == old(c.width) && c.height == old(c.height) && c.isRecycled == old(c.isRecycled)
    {
      var i := FirstFit(Allocations(pool), width, height);
      if i < |pool| {
        RecycledNeverReused(pool, width, height);
        b := pool[i];
        pool := pool[..i] + pool[i + 1..];
        if b.width != width || b.height != height {
          b.width := width;
          b.height := height;
        }
        return;
      }
      if width > 0 && height > 0 {
        b := new Bitmap(width, height);
      } else {
        b := null;
      }
    }

    /** `recycle`: `null` is ignored; a bitmap joins the pool unless it is already in it. */
    method Recycle(b: Bitmap?)
      requires Valid()
      modifies this
      ensures Valid()
      ensures b == null || b in old(pool) ==> pool == old(pool)
      ensures b != null && b !in old(pool) ==> pool == old(pool) + [b]
    {
      if b != null && b !in pool {
        pool := pool + [b];
      }
    }

    /** `clear`: every pooled bitmap is recycled; the bitmaps stay in the pool. */
    method Clear()
      requires Valid()
      modifies pool
      ensures Valid() && pool == old(pool)
      ensures forall b :: b in pool ==> b.isRecycled
      ensures MemorySize(pool) == 0
    {
      for i := 0 to |pool|
        invariant forall k :: 0 <= k < i ==> pool[k].isRecycled
      {
        if !pool[i].isRecycled {
          pool[i].isRecycled := true;
        }
      }
      NoLiveMemory(pool);
    }

    /** `getMemorySize`. */
    method GetMemorySize() returns (n: int)
      ensures n == MemorySize(pool)
    {
      n := MemorySize(pool);
    }
  }

  /** The bytes held by the bitmaps that have not been recycled. */
  function MemorySize(pool: seq<Bitmap>): int
    reads set b | b in pool
  {
    if |pool| == 0 then 0
    else
      var last := pool[|pool| - 1];
      MemorySize(pool[..|pool| - 1]) + (if last.isRecycled then 0 else last.allocationByteCount)
  }

  /** Recycled bitmaps hold no memory. */
  lemma {:induction false} NoLiveMemory(pool: seq<Bitmap>)
    requires forall b :: b in pool ==> b.isRecycled
    ensures MemorySize(pool) == 0
  {
    if |pool| > 0 {
      assert forall b :: b in pool[..|pool| - 1] ==> b in pool;
      NoLiveMemory(pool[..|pool| - 1]);
    }
  }

  /** Recycling a live bitmap into the pool adds its allocation to the pool's memory size. */
  lemma MemorySizeAppend(pool: seq<Bitmap>, b: Bitmap)
    ensures MemorySize(pool + [b]) == MemorySize(pool) + (if b.isRecycled then 0 else b.allocationByteCount)
  {
    assert (pool + [b])[..|pool|] == pool;
  }
}
