/**
 * The APNG reader's primitives over the shared buffer reader: big-endian
 * `Int` and `Short`, the little-endian FourCC, and the four-character match.
 * Each read goes through a 4-byte scratch array, as the source's thread-local one.
 */
module APNGReaders {
  import opened Bytes
  import opened Results
  import opened ByteBufferReaders

  /** The Kotlin `Int` that `readInt` builds from the 4 bytes at `p`. */
  function IntAt(data: seq<Byte>, p: int): int
    requires 0 <= p && p + 4 <= |data|
  {
    I32(BE32At(data, p))
  }

  /** The Kotlin `Short` that `readShort` builds from the 2 bytes at `p`. */
  function ShortAt(data: seq<Byte>, p: int): int
    requires 0 <= p && p + 2 <= |data|
  {
    I16(BE16At(data, p))
  }

  /** The Kotlin `Int` that `readFourCC` packs from the 4 bytes at `p`. */
  function FourCCAt(data: seq<Byte>, p: int): int
    requires 0 <= p && p + 4 <= |data|
  {
    I32(LE32At(data, p))
  }

  /** The words inside `b` read the same wherever `b` sits in a longer stream. */
  lemma IntAtInside(a: seq<Byte>, b: seq<Byte>, c: seq<Byte>, k: int)
    requires 0 <= k && k + 4 <= |b|
    ensures IntAt(a + b + c, |a| + k) == IntAt(b, k)
    ensures FourCCAt(a + b + c, |a| + k) == FourCCAt(b, k)
  {
    var d := a + b + c;
    assert d[|a| + k] == b[k] && d[|a| + k + 1] == b[k + 1] && d[|a| + k + 2] == b[k + 2] && d[|a| + k + 3] == b[k + 3];
  }

  method ReadInt(r: ByteBufferReader) returns (res: Result<int>)
    requires r.Valid()
    modifies r
    ensures r.Valid()
    ensures res.Ok? <==> old(r.pos) + 4 <= |r.data|
    ensures res.Ok? ==> res.value == IntAt(r.data, old(r.pos)) && r.pos == old(r.pos) + 4
    ensures res.Err? ==> res.error == Underflow && r.pos == old(r.pos)
  {
    var buf :- ReadScratch(r, 4);
    assert buf[0] == r.data[old(r.pos)] && buf[1] == r.data[old(r.pos) + 1];
    assert buf[2] == r.data[old(r.pos) + 2] && buf[3] == r.data[old(r.pos) + 3];
    res := Ok(I32(BE32(buf[0], buf[1], buf[2], buf[3])));
  }

  method ReadShort(r: ByteBufferReader) returns (res: Result<int>)
    requires r.Valid()
    modifies r
    ensures r.Valid()
    ensures res.Ok? <==> old(r.pos) + 2 <= |r.data|
    ensures res.Ok? ==> res.value == ShortAt(r.data, old(r.pos)) && r.pos == old(r.pos) + 2
    ensures res.Err? ==> res.error == Underflow && r.pos == old(r.pos)
  {
    var buf :- ReadScratch(r, 2);
    assert buf[0] == r.data[old(r.pos)] && buf[1] == r.data[old(r.pos) + 1];
    res := Ok(I16(BE16(buf[0], buf[1])));
  }

  method ReadFourCC(r: ByteBufferReader) returns (res: Result<int>)
    requires r.Valid()
    modifies r
    ensures r.Valid()
    ensures res.Ok? <==> old(r.pos) + 4 <= |r.data|
    ensures res.Ok? ==> res.value == FourCCAt(r.data, old(r.pos)) && r.pos == old(r.pos) + 4
    ensures res.Err? ==> res.error == Underflow && r.pos == old(r.pos)
  {
    var buf :- ReadScratch(r, 4);
    assert buf[0] == r.data[old(r.pos)] && buf[1] == r.data[old(r.pos) + 1];
    assert buf[2] == r.data[old(r.pos) + 2] && buf[3] == r.data[old(r.pos) + 3];
    res := Ok(I32(LE32(buf[0], buf[1], buf[2], buf[3])));
  }

  /**
   * A string that is not four characters long never matches and nothing is read;
   * otherwise four bytes are consumed and the result says whether they spell it.
   */
  method MatchFourCC(r: ByteBufferReader, chars: string) returns (res: Result<bool>)
    requires r.Valid()
    modifies r
    ensures r.Valid()
    ensures |chars| != 4 ==> res == Ok(false) && r.pos == old(r.pos)
    ensures |chars| == 4 && old(r.pos) + 4 > |r.data| ==> res == Err(Underflow) && r.pos == old(r.pos)
    ensures |chars| == 4 && old(r.pos) + 4 <= |r.data| ==>
      r.pos == old(r.pos) + 4 && res == Ok(BytesSpell(r.data[old(r.pos)..old(r.pos) + 4], chars))
  {
    if |chars| != 4 {
      return Ok(false);
    }
    var fourCC :- ReadFourCC(r);
    ghost var b := r.data[old(r.pos)..old(r.pos) + 4];
    LE4OfLE32(b[0], b[1], b[2], b[3]);
    assert forall j :: 0 <= j < 4 ==> ByteOf(fourCC, j) == LE4(fourCC)[j];
    for i := 0 to 4
      invariant forall j :: 0 <= j < i ==> b[j] == chars[j] as int
    {
      if ByteOf(fourCC, i) != chars[i] as int {
        assert b[i] != chars[i] as int;
        return Ok(false);
      }
    }
    res := Ok(true);
  }
}
