/**
 * The WebP reader's primitives: little-endian unsigned 16/24/32-bit fields,
 * the FourCC, the "1-based" 24-bit field and the four-character match (RFC 9649, section 2.1).
 */
module WebPReaders {
  import opened Bytes
  import opened Results
  import opened ByteBufferReaders

  /** The Kotlin `Int` that `readUInt32` (and `readFourCC`) builds from the 4 bytes at `p`. */
  function UInt32At(data: seq<Byte>, p: int): int
    requires 0 <= p && p + 4 <= |data|
  {
    I32(LE32At(data, p))
  }

  method ReadUInt16(r: ByteBufferReader) returns (res: Result<int>)
    requires r.Valid()
    modifies r
    ensures r.Valid()
    ensures res.Ok? <==> old(r.pos) + 2 <= |r.data|
    ensures res.Ok? ==> res.value == LE16At(r.data, old(r.pos)) && r.pos == old(r.pos) + 2
    ensures res.Ok? ==> 0 <= res.value < TWO_16
    ensures res.Err? ==> res.error == Underflow && r.pos == old(r.pos)
  {
    var buf :- ReadScratch(r, 2);
    assert buf[0] == r.data[old(r.pos)] && buf[1] == r.data[old(r.pos) + 1];
    res := Ok(LE16(buf[0], buf[1]));
  }

  method ReadUInt24(r: ByteBufferReader) returns (res: Result<int>)
    requires r.Valid()
    modifies r
    ensures r.Valid()
    ensures res.Ok? <==> old(r.pos) + 3 <= |r.data|
    ensures res.Ok? ==> res.value == LE24At(r.data, old(r.pos)) && r.pos == old(r.pos) + 3
    ensures res.Ok? ==> 0 <= res.value < TWO_24
    ensures res.Err? ==> res.error == Underflow && r.pos == old(r.pos)
  {
    var buf :- ReadScratch(r, 3);
    assert buf[0] == r.data[old(r.pos)] && buf[1] == r.data[old(r.pos) + 1];
    assert buf[2] == r.data[old(r.pos) + 2];
    res := Ok(LE24(buf[0], buf[1], buf[2]));
  }

  /** An unsigned field read into a signed `Int`: values from 2^31 on come out negative. */
  method ReadUInt32(r: ByteBufferReader) returns (res: Result<int>)
    requires r.Valid()
    modifies r
    ensures r.Valid()
    ensures res.Ok? <==> old(r.pos) + 4 <= |r.data|
    ensures res.Ok? ==> res.value == UInt32At(r.data, old(r.pos)) && r.pos == old(r.pos) + 4
    ensures res.Err? ==> res.error == Underflow && r.pos == old(r.pos)
  {
    var buf :- ReadScratch(r, 4);
    assert buf[0] == r.data[old(r.pos)] && buf[1] == r.data[old(r.pos) + 1];
    assert buf[2] == r.data[old(r.pos) + 2] && buf[3] == r.data[old(r.pos) + 3];
    res := Ok(I32(LE32(buf[0], buf[1], buf[2], buf[3])));
  }

  /** The same bytes, the same formula: a FourCC is a little-endian `uint32`. */
  method ReadFourCC(r: ByteBufferReader) returns (res: Result<int>)
    requires r.Valid()
    modifies r
    ensures r.Valid()
    ensures res.Ok? <==> old(r.pos) + 4 <= |r.data|
    ensures res.Ok? ==> res.value == UInt32At(r.data, old(r.pos)) && r.pos == old(r.pos) + 4
    ensures res.Err? ==> res.error == Underflow && r.pos == old(r.pos)
  {
    var buf :- ReadScratch(r, 4);
    assert buf[0] == r.data[old(r.pos)] && buf[1] == r.data[old(r.pos) + 1];
    assert buf[2] == r.data[old(r.pos) + 2] && buf[3] == r.data[old(r.pos) + 3];
    res := Ok(I32(LE32(buf[0], buf[1], buf[2], buf[3])));
  }

  /** A field that stores `value - 1`: the result lies in [1, 2^24]. */
  method Read1Based(r: ByteBufferReader) returns (res: Result<int>)
    requires r.Valid()
    modifies r
    ensures r.Valid()
    ensures res.Ok? <==> old(r.pos) + 3 <= |r.data|
    ensures res.Ok? ==> res.value == LE24At(r.data, old(r.pos)) + 1 && r.pos == old(r.pos) + 3
    ensures res.Ok? ==> 1 <= res.value <= TWO_24
    ensures res.Err? ==> res.error == Underflow && r.pos == old(r.pos)
  {
    var v :- ReadUInt24(r);
    res := Ok(v + 1);
  }

  /**
   * A string that is not four characters long never matches and nothing is read;
   * otherwise four bytes are consumed and the result says whether they spell it.
   */
  method MatchFourCC(r: ByteBufferReader, chars: string) returns (res: Result<bool>)
    requires r.Valid()
    modifies r
    ensures r.Valid()
    ensures |chars| != 4 ==> res == Ok(false) && r.pos == old(r.pos)
    ensures |chars| == 4 && old(r.pos) + 4 > |r.data| ==> res == Err(Underflow) && r.pos == old(r.pos)
    ensures |chars| == 4 && old(r.pos) + 4 <= |r.data| ==>
      r.pos == old(r.pos) + 4 && res == Ok(BytesSpell(r.data[old(r.pos)..old(r.pos) + 4], chars))
  {
    if |chars| != 4 {
      return Ok(false);
    }
    var fourCC :- ReadFourCC(r);
    ghost var b := r.data[old(r.pos)..old(r.pos) + 4];
    LE4OfLE32(b[0], b[1], b[2], b[3]);
    assert forall j :: 0 <= j < 4 ==> ByteOf(fourCC, j) == LE4(fourCC)[j];
    for i := 0 to 4
      invariant forall j :: 0 <= j < i ==> b[j] == chars[j] as int
    {
      if ByteOf(fourCC, i) != chars[i] as int {
        assert b[i] != chars[i] as int;
        return Ok(false);
      }
    }
    res := Ok(true);
  }
}
