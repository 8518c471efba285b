/** The APNG writer's primitives: the FourCC low byte first, an `Int` high byte first. */
module APNGWriters {
  import opened Bytes
  import opened ByteBufferReaders
  import opened ByteBufferWriters
  import opened APNGReaders

  method WriteFourCC(w: ByteBufferWriter, value: int)
    requires w.Valid() && w.pos + 4 <= w.buffer.Length
    modifies w, w.buffer
    ensures w.Valid() && w.buffer == old(w.buffer)
    ensures w.pos == old(w.pos) + 4
    ensures w.buffer[..] == old(w.buffer[..w.pos]) + LE4(value) + old(w.buffer[w.pos + 4..])
    ensures w.Written() == old(w.Written()) + LE4(value)
  {
    w.PutBytes(LE4(value));
  }

  method WriteInt(w: ByteBufferWriter, value: int)
    requires w.Valid() && w.pos + 4 <= w.buffer.Length
    modifies w, w.buffer
    ensures w.Valid() && w.buffer == old(w.buffer)
    ensures w.pos == old(w.pos) + 4
    ensures w.buffer[..] == old(w.buffer[..w.pos]) + BE4(value) + old(w.buffer[w.pos + 4..])
    ensures w.Written() == old(w.Written()) + BE4(value)
  {
    w.PutBytes(BE4(value));
  }

  /** `readInt` after `writeInt(v)` gives `v` back, wherever the four bytes sit. */
  lemma ReadIntAfterWriteInt(v: int, before: seq<Byte>, after: seq<Byte>)
    requires IsInt32(v)
    ensures IntAt(before + BE4(v) + after, |before|) == v
  {
    var d := before + BE4(v) + after;
    var k := |before|;
    assert d[k] == BE4(v)[0] && d[k + 1] == BE4(v)[1] && d[k + 2] == BE4(v)[2] && d[k + 3] == BE4(v)[3];
    BE32OfBE4(v);
    I32OfMod(v);
  }

  /** `readFourCC` after `writeFourCC(v)` gives `v` back, wherever the four bytes sit. */
  lemma ReadFourCCAfterWriteFourCC(v: int, before: seq<Byte>, after: seq<Byte>)
    requires IsInt32(v)
    ensures FourCCAt(before + LE4(v) + after, |before|) == v
  {
    var d := before + LE4(v) + after;
    var k := |before|;
    assert d[k] == LE4(v)[0] && d[k + 1] == LE4(v)[1] && d[k + 2] == LE4(v)[2] && d[k + 3] == LE4(v)[3];
    LE32OfLE4(v);
    I32OfMod(v);
  }
}
