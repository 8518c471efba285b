/** The WebP writer's primitives: little-endian fields, the 1-based field and the FourCC. */
module WebPWriters {
  import opened Bytes
  import opened ByteBufferReaders
  import opened ByteBufferWriters

  method PutUInt16(w: ByteBufferWriter, value: int)
    requires w.Valid() && w.pos + 2 <= w.buffer.Length
    modifies w, w.buffer
    ensures w.Valid() && w.buffer == old(w.buffer)
    ensures w.pos == old(w.pos) + 2
    ensures w.buffer[..] == old(w.buffer[..w.pos]) + LE2(value) + old(w.buffer[w.pos + 2..])
    ensures w.Written() == old(w.Written()) + LE2(value)
  {
    w.PutBytes(LE2(value));
  }

  method PutUInt24(w: ByteBufferWriter, value: int)
    requires w.Valid() && w.pos + 3 <= w.buffer.Length
    modifies w, w.buffer
    ensures w.Valid() && w.buffer == old(w.buffer)
    ensures w.pos == old(w.pos) + 3
    ensures w.buffer[..] == old(w.buffer[..w.pos]) + LE3(value) + old(w.buffer[w.pos + 3..])
    ensures w.Written() == old(w.Written()) + LE3(value)
  {
    w.PutBytes(LE3(value));
  }

  method PutUInt32(w: ByteBufferWriter, value: int)
    requires w.Valid() && w.pos + 4 <= w.buffer.Length
    modifies w, w.buffer
    ensures w.Valid() && w.buffer == old(w.buffer)
    ensures w.pos == old(w.pos) + 4
    ensures w.buffer[..] == old(w.buffer[..w.pos]) + LE4(value) + old(w.buffer[w.pos + 4..])
    ensures w.Written() == old(w.Written()) + LE4(value)
  {
    w.PutBytes(LE4(value));
  }

  /** Stores `i - 1` in 24 bits. */
  method Put1Based(w: ByteBufferWriter, i: int)
    requires w.Valid() && w.pos + 3 <= w.buffer.Length
    modifies w, w.buffer
    ensures w.Valid() && w.buffer == old(w.buffer)
    ensures w.pos == old(w.pos) + 3
    ensures w.buffer[..] == old(w.buffer[..w.pos]) + LE3(i - 1) + old(w.buffer[w.pos + 3..])
    ensures w.Written() == old(w.Written()) + LE3(i - 1)
  {
    PutUInt24(w, i - 1);
  }

  /**
   * Four characters go out as the low bytes of their codes; any other string
   * moves the position by 4 and leaves those bytes as they were.
   */
  method PutFourCC(w: ByteBufferWriter, fourCC: string)
    requires w.Valid() && w.pos + 4 <= w.buffer.Length
    modifies w, w.buffer
    ensures w.Valid() && w.buffer == old(w.buffer)
    ensures w.pos == old(w.pos) + 4
    ensures |fourCC| == 4 ==>
      w.buffer[..] == old(w.buffer[..w.pos]) + LowBytes(fourCC) + old(w.buffer[w.pos + 4..])
    ensures |fourCC| == 4 ==> w.Written() == old(w.Written()) + LowBytes(fourCC)
    ensures |fourCC| != 4 ==> w.buffer[..] == old(w.buffer[..])
  {
    if |fourCC| != 4 {
      w.Skip(4);
      return;
    }
    w.PutBytes(LowBytes(fourCC));
  }

  /** The 16-bit field read back (by the WebP or the GIF reader) is `v` modulo 2^16. */
  lemma ReadUInt16AfterPutUInt16(v: int, before: seq<Byte>, after: seq<Byte>)
    ensures LE16At(before + LE2(v) + after, |before|) == v % TWO_16
  {
    var d := before + LE2(v) + after;
    var k := |before|;
    assert d[k] == LE2(v)[0] && d[k + 1] == LE2(v)[1];
    LE16OfLE2(v);
  }

  /** The 24-bit field read back is `v` modulo 2^24. */
  lemma ReadUInt24AfterPutUInt24(v: int, before: seq<Byte>, after: seq<Byte>)
    ensures LE24At(before + LE3(v) + after, |before|) == v % TWO_24
  {
    var d := before + LE3(v) + after;
    var k := |before|;
    assert d[k] == LE3(v)[0] && d[k + 1] == LE3(v)[1] && d[k + 2] == LE3(v)[2];
    LE24OfLE3(v);
  }

  /** The 32-bit field read back into an `Int` is the `Int` written. */
  lemma ReadUInt32AfterPutUInt32(v: int, before: seq<Byte>, after: seq<Byte>)
    requires IsInt32(v)
    ensures I32(LE32At(before + LE4(v) + after, |before|)) == v
  {
    var d := before + LE4(v) + after;
    var k := |before|;
    assert d[k] == LE4(v)[0] && d[k + 1] == LE4(v)[1] && d[k + 2] == LE4(v)[2] && d[k + 3] == LE4(v)[3];
    LE32OfLE4(v);
    I32OfMod(v);
  }

  /** `read1Based` after `put1Based(i)` gives `i` back for every i in [1, 2^24]. */
  lemma Read1BasedAfterPut1Based(i: int, before: seq<Byte>, after: seq<Byte>)
    requires 1 <= i <= TWO_24
    ensures LE24At(before + LE3(i - 1) + after, |before|) + 1 == i
  {
    ReadUInt24AfterPutUInt24(i - 1, before, after);
  }

  /** A FourCC of 8-bit characters, once written, matches itself when read back. */
  lemma MatchAfterPutFourCC(fourCC: string)
    requires |fourCC| == 4
    requires forall i :: 0 <= i < 4 ==> fourCC[i] as int < 256
    ensures BytesSpell(LowBytes(fourCC), fourCC)
  {
  }
}
