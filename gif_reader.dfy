/** The GIF reader's one primitive: the little-endian unsigned 16-bit field. */
module GifReaders {
  import opened Bytes
  import opened Results
  import opened ByteBufferReaders

  /** Consumes exactly 2 bytes; the result lies in [0, 65535]. */
  method ReadUInt16(r: ByteBufferReader) returns (res: Result<int>)
    requires r.Valid()
    modifies r
    ensures r.Valid()
    ensures res.Ok? <==> old(r.pos) + 2 <= |r.data|
    ensures res.Ok? ==> res.value == LE16At(r.data, old(r.pos)) && r.pos == old(r.pos) + 2
    ensures res.Ok? ==> 0 <= res.value < TWO_16
    ensures res.Err? ==> res.error == Underflow && r.pos == old(r.pos)
  {
    var buf :- ReadScratch(r, 2);
    assert buf[0] == r.data[old(r.pos)] && buf[1] == r.data[old(r.pos) + 1];
    res := Ok(LE16(buf[0], buf[1]));
  }
}
