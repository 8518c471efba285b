/**
 * The reader every parser consumes: a cursor over a byte buffer whose limit is
 * its length. Positions are Kotlin `Int`s, the contents never change, and the
 * buffer's own exceptions become `Result` errors that leave the cursor where it was.
 */
module ByteBufferReaders {
  import opened Bytes
  import opened Results

  /** The fixed-width decodings of the bytes at `p`, as the format readers compute them. */
  function BE16At(data: seq<Byte>, p: int): int
    requires 0 <= p && p + 2 <= |data|
  {
    BE16(data[p], data[p + 1])
  }

  function BE32At(data: seq<Byte>, p: int): int
    requires 0 <= p && p + 4 <= |data|
  {
    BE32(data[p], data[p + 1], data[p + 2], data[p + 3])
  }

  function LE16At(data: seq<Byte>, p: int): int
    requires 0 <= p && p + 2 <= |data|
  {
    LE16(data[p], data[p + 1])
  }

  function LE24At(data: seq<Byte>, p: int): int
    requires 0 <= p && p + 3 <= |data|
  {
    LE24(data[p], data[p + 1], data[p + 2])
  }

  function LE32At(data: seq<Byte>, p: int): int
    requires 0 <= p && p + 4 <= |data|
  {
    LE32(data[p], data[p + 1], data[p + 2], data[p + 3])
  }

  /** A Java buffer's limit is an `Int`. */
  const MAX_LIMIT: int := 0x7fff_ffff

  /**
   * Where `skip(total)` from `p` lands: `p + total` truncated to an `Int`, refused
   * outside [0, limit].
   */
  function SkipAt(data: seq<Byte>, p: int, total: int): Result<int>
  {
    var target := I32(p + total);
    if 0 <= target <= |data| then Ok(target) else Err(BadPosition)
  }

  /** A forward skip by an `Int` amount lands exactly `total` bytes on, or is refused. */
  lemma SkipForward(data: seq<Byte>, p: int, total: int)
    requires |data| <= MAX_LIMIT && 0 <= p <= |data| && 0 <= total <= MAX_LIMIT
    ensures SkipAt(data, p, total).Ok? <==> p + total <= |data|
    ensures SkipAt(data, p, total).Ok? ==> SkipAt(data, p, total).value == p + total
  {
    if p + total < 0x8000_0000 {
      assert I32(p + total) == p + total;
    } else {
      Mod32(p + total, 0, p + total);
      assert I32(p + total) == p + total - TWO_32;
    }
  }

  class ByteBufferReader {
    /** The buffer's contents up to its limit. */
    const data: seq<Byte>
    /** The buffer's position. */
    var pos: int

    ghost predicate Valid()
      reads this
    {
      0 <= pos <= |data| && |data| <= MAX_LIMIT
    }

    /** Wrapping a buffer rewinds it to position 0. */
    constructor (contents: seq<Byte>)
      requires |contents| <= MAX_LIMIT
      ensures Valid()
      ensures data == contents && pos == 0
    {
      data := contents;
      pos := 0;
    }

    /**
     * Moves to `pos + total`, truncated to a Kotlin `Int`; a target outside
     * [0, limit] is refused and the position is kept. Returns `total`.
     */
    method Skip(total: int) returns (res: Result<int>)
      requires Valid()
      modifies this
      ensures Valid()
      ensures SkipAt(data, old(pos), total).Ok? ==> pos == SkipAt(data, old(pos), total).value && res == Ok(total)
      ensures SkipAt(data, old(pos), total).Err? ==> pos == old(pos) && res == Err(BadPosition)
    {
      var target := I32(pos + total);
      if 0 <= target <= |data| {
        pos := target;
        res := Ok(total);
      } else {
        res := Err(BadPosition);
      }
    }

    /** Returns the byte at the position and moves past it. */
    method Peek() returns (res: Result<Byte>)
      requires Valid()
      modifies this
      ensures Valid()
      ensures old(pos) < |data| ==> res == Ok(data[old(pos)]) && pos == old(pos) + 1
      ensures old(pos) >= |data| ==> res == Err(Underflow) && pos == old(pos)
    {
      if pos < |data| {
        res := Ok(data[pos]);
        pos := pos + 1;
      } else {
        res := Err(Underflow);
      }
    }

    /** Rewinds to position 0. */
    method Reset()
      requires Valid()
      modifies this
      ensures Valid() && pos == 0
    {
      pos := 0;
    }

    method Position() returns (p: int)
      requires Valid()
      ensures 0 <= p <= |data| && p == pos
    {
      p := pos;
    }

    /**
     * Copies the next `n` bytes into `buffer[start .. start + n]` and returns `n`.
     * A destination range outside the array is refused first, then a count
     * larger than what remains; either leaves the cursor and the array as they were.
     */
    method Read(buffer: array<Byte>, start: int, n: int) returns (res: Result<int>)
      requires Valid()
      modifies this, buffer
      ensures Valid()
      ensures !(0 <= start && 0 <= n && start + n <= buffer.Length) ==>
        res == Err(BadArgument) && pos == old(pos) && buffer[..] == old(buffer[..])
      ensures 0 <= start && 0 <= n && start + n <= buffer.Length && old(pos) + n > |data| ==>
        res == Err(Underflow) && pos == old(pos) && buffer[..] == old(buffer[..])
      ensures res.Ok? <==> 0 <= start && 0 <= n && start + n <= buffer.Length && old(pos) + n <= |data|
      ensures res.Ok? ==>
        && res.value == n
        && pos == old(pos) + n
        && buffer[..] == old(buffer[..start]) + data[old(pos)..old(pos) + n] + old(buffer[start + n..])
    {
      if !(0 <= start && 0 <= n && start + n <= buffer.Length) {
        return Err(BadArgument);
      }
      if pos + n > |data| {
        return Err(Underflow);
      }
      forall i | start <= i < start + n {
        buffer[i] := data[pos + i - start];
      }
      assert buffer[..] == old(buffer[..start]) + data[pos..pos + n] + old(buffer[start + n..]);
      pos := pos + n;
      res := Ok(n);
    }

    /** What remains between the position and the limit. */
    method Available() returns (n: int)
      requires Valid()
      ensures n == |data| - pos && n >= 0
    {
      n := |data| - pos;
    }
  }

  /** Reads `n` bytes into a fresh scratch array, as every fixed-width read does. */
  method ReadScratch(r: ByteBufferReader, n: nat) returns (res: Result<array<Byte>>)
    requires r.Valid() && n <= 4
    modifies r
    ensures r.Valid()
    ensures res.Ok? <==> old(r.pos) + n <= |r.data|
    ensures res.Ok? ==>
      && r.pos == old(r.pos) + n && fresh(res.value) && res.value.Length == 4
      && res.value[..n] == r.data[old(r.pos)..old(r.pos) + n]
    ensures res.Err? ==> res.error == Underflow && r.pos == old(r.pos)
  {
    var buf := new Byte[4](_ => 0);
    ghost var before := buf[..];
    var got := r.Read(buf, 0, n);
    if got.Err? {
      return Err(got.error);
    }
    assert buf[..n] == (before[..0] + r.data[old(r.pos)..old(r.pos) + n] + before[n..])[..n];
    res := Ok(buf);
  }
}
