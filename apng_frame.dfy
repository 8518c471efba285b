/**
 * One APNG frame as a stand-alone PNG: the signature, an IHDR carrying the
 * frame's size, the shared prefix chunks copied verbatim, the frame's IDAT chunks
 * copied and its fdAT chunks rewritten as IDAT, and the fixed IEND chunk. The
 * encoder sizes its writer by `FrameSize` first, and writes exactly that many bytes.
 */
module APNGFrames {
  import opened Bytes
  import opened Results
  import opened ByteBufferReaders
  import opened ByteBufferWriters
  import opened APNGReaders
  import opened APNGWriters
  import opened APNGChunks
  import opened FCTLChunks
  import opened APNGParsers

  /** The 12 bytes of an empty IEND chunk with its CRC. */
  const PNG_END_CHUNK: seq<Byte> := [0, 0, 0, 0, 0x49, 0x45, 0x4E, 0x44, 0xAE, 0x42, 0x60, 0x82]

  /** Length, type, width, height, the 5 IHDR bytes and the CRC. */
  const IHDR_CHUNK_SIZE: int := 25

  /** The IHDR body length written in its length field. */
  const IHDR_LENGTH: int := 13

  /** A CRC-32 over a byte range, as `java.util.zip.CRC32.value` (a `Long` in [0, 2^32)). */
  type Crc32 = seq<Byte> -> int

  /**
   * An APNG frame: its position, size and timing come from its fcTL; it keeps the
   * IHDR bytes, the chunks every frame shares and its own image chunks.
   */
  datatype ApngFrame = ApngFrame(
    index: int,
    x: int, y: int, width: int, height: int,
    duration: int,
    blendOp: int, disposeOp: int,
    ihdrData: seq<Byte>,
    prefixChunks: seq<Chunk>,
    imageChunks: seq<Chunk>)

  /**
   * `getDuration`: a zero denominator reads as 100; the delay in milliseconds is
   * `num * 1000 / den` rounded toward zero, and anything under 10 ms becomes 100 ms.
   */
  function Duration(delayNum: int, delayDen: int): (r: int)
    ensures r >= 10
  {
    var den := if delayDen == 0 then 100 else delayDen;
    var duration := TruncDiv(delayNum * 1000, den);
    if duration < 10 then 100 else duration
  }

  /** A zero denominator is 1/100 s; a delay of at least 10 ms is kept, a shorter one is 100 ms. */
  lemma DurationOfDelay(delayNum: int, delayDen: int)
    requires 0 <= delayNum && 0 <= delayDen
    ensures Duration(delayNum, 0) == Duration(delayNum, 100)
    ensures delayDen > 0 && delayNum * 1000 >= 10 * delayDen ==> Duration(delayNum, delayDen) == delayNum * 1000 / delayDen
    ensures delayDen > 0 && delayNum * 1000 < 10 * delayDen ==> Duration(delayNum, delayDen) == 100
  {
    if delayDen > 0 {
      DivAtLeast(delayNum * 1000, delayDen, 10);
    }
  }

  /** `n / d` reaches `k` exactly when `n` reaches `k * d`. */
  lemma DivAtLeast(n: int, d: int, k: int)
    requires 0 <= n && 0 < d
    ensures n / d >= k <==> n >= k * d
  {
    var q := n / d;
    assert n == q * d + n % d;
    if q >= k {
      MulMonotone(k, q, d);
    } else {
      MulMonotone(q, k - 1, d);
    }
  }

  lemma MulMonotone(a: int, b: int, c: int)
    requires a <= b && 0 <= c
    ensures a * c <= b * c
  {
  }

  /** The frame `APNGFrame`'s constructor builds from an fcTL and the shared chunks. */
  function NewFrame(index: int, fctl: FctlFields, ihdrData: seq<Byte>, prefixChunks: seq<Chunk>, imageChunks: seq<Chunk>): (f: ApngFrame)
    ensures f.x == fctl.xOffset && f.y == fctl.yOffset
    ensures f.width == fctl.width && f.height == fctl.height
    ensures f.duration == Duration(fctl.delayNum, fctl.delayDen) && f.duration >= 10
    ensures f.blendOp == fctl.blendOp && f.disposeOp == fctl.disposeOp
    ensures f.index == index && f.prefixChunks == prefixChunks && f.imageChunks == imageChunks
  {
    ApngFrame(index, fctl.xOffset, fctl.yOffset, fctl.width, fctl.height,
      Duration(fctl.delayNum, fctl.delayDen), fctl.blendOp, fctl.disposeOp,
      ihdrData, prefixChunks, imageChunks)
  }

  // ---------------------------------------------------------------------
  // The size and the bytes of the encoded frame.

  /** A chunk lies entirely within the stream it was parsed from. */
  predicate InStream(c: Chunk, data: seq<Byte>)
  {
    0 <= c.offset && 0 <= c.length && ChunkEnd(c) <= |data|
  }

  /** An image chunk is an IDAT, or an fdAT holding at least its sequence number. */
  predicate IsImageChunk(c: Chunk, data: seq<Byte>)
  {
    InStream(c, data) && (c.body.Idat? || (c.body.Fdat? && c.length >= 4))
  }

  predicate AllInStream(cs: seq<Chunk>, data: seq<Byte>)
  {
    forall i :: 0 <= i < |cs| ==> InStream(cs[i], data)
  }

  predicate AllImageChunks(cs: seq<Chunk>, data: seq<Byte>)
  {
    forall i :: 0 <= i < |cs| ==> IsImageChunk(cs[i], data)
  }

  /** The bytes a prefix chunk takes: all of it, header and CRC included. */
  function PrefixSize(cs: seq<Chunk>): int
  {
    if |cs| == 0 then 0 else PrefixSize(cs[..|cs| - 1]) + cs[|cs| - 1].length + CHUNK_OVERHEAD
  }

  /** An fdAT loses its 4-byte sequence number; an IDAT is copied whole. */
  function ImageChunkSize(c: Chunk): int
  {
    if c.body.Fdat? then c.length + 8 else c.length + CHUNK_OVERHEAD
  }

  function ImageSize(cs: seq<Chunk>): int
  {
    if |cs| == 0 then 0 else ImageSize(cs[..|cs| - 1]) + ImageChunkSize(cs[|cs| - 1])
  }

  /** `calculateFrameSizeInBytes`. */
  function FrameSize(prefixChunks: seq<Chunk>, imageChunks: seq<Chunk>): int
  {
    8 + IHDR_LENGTH + CHUNK_OVERHEAD + PrefixSize(prefixChunks) + ImageSize(imageChunks) + |PNG_END_CHUNK|
  }

  /** The IHDR chunk: length 13, then type, width, height and the 5 bytes, then the CRC of those 17 bytes. */
  function IhdrChunk(width: int, height: int, ihdrData: seq<Byte>, crc: Crc32): seq<Byte>
  {
    var tagged := LE4(IHDR_ID) + BE4(width) + BE4(height) + ihdrData;
    BE4(IHDR_LENGTH) + tagged + BE4(I32(crc(tagged)))
  }

  /** The chunks copied verbatim from the stream, in order. */
  function Copied(data: seq<Byte>, cs: seq<Chunk>): seq<Byte>
    requires AllInStream(cs, data)
  {
    if |cs| == 0 then []
    else
      var c := cs[|cs| - 1];
      Copied(data, cs[..|cs| - 1]) + data[c.offset..ChunkEnd(c)]
  }

  /**
   * An fdAT rewritten as IDAT: length `len - 4`, the IDAT type, the body after
   * the sequence number, and the CRC of type and body.
   */
  function IdatOfFdat(data: seq<Byte>, c: Chunk, crc: Crc32): seq<Byte>
    requires InStream(c, data) && c.length >= 4
  {
    var tagged := LE4(IDAT_ID) + data[c.offset + 12..c.offset + 8 + c.length];
    BE4(c.length - 4) + tagged + BE4(I32(crc(tagged)))
  }

  function ImageChunkBytes(data: seq<Byte>, c: Chunk, crc: Crc32): seq<Byte>
    requires IsImageChunk(c, data)
  {
    if c.body.Fdat? then IdatOfFdat(data, c, crc) else data[c.offset..ChunkEnd(c)]
  }

  function ImageBytes(data: seq<Byte>, cs: seq<Chunk>, crc: Crc32): seq<Byte>
    requires AllImageChunks(cs, data)
  {
    if |cs| == 0 then []
    else ImageBytes(data, cs[..|cs| - 1], crc) + ImageChunkBytes(data, cs[|cs| - 1], crc)
  }

  /** What `encode` leaves in the writer. */
  function EncodedFrame(data: seq<Byte>, width: int, height: int, ihdrData: seq<Byte>,
                        prefixChunks: seq<Chunk>, imageChunks: seq<Chunk>, crc: Crc32): seq<Byte>
    requires AllInStream(prefixChunks, data) && AllImageChunks(imageChunks, data)
  {
    PNG_SIGNATURE + IhdrChunk(width, height, ihdrData, crc)
      + Copied(data, prefixChunks) + ImageBytes(data, imageChunks, crc) + PNG_END_CHUNK
  }

  // ---------------------------------------------------------------------
  // Properties of the encoding.

  lemma {:induction false} CopiedSize(data: seq<Byte>, cs: seq<Chunk>)
    requires AllInStream(cs, data)
    ensures |Copied(data, cs)| == PrefixSize(cs)
  {
    if |cs| > 0 {
      CopiedSize(data, cs[..|cs| - 1]);
    }
  }

  lemma ImageChunkBytesSize(data: seq<Byte>, c: Chunk, crc: Crc32)
    requires IsImageChunk(c, data)
    ensures |ImageChunkBytes(data, c, crc)| == ImageChunkSize(c)
  {
    if c.body.Fdat? {
      var tagged := LE4(IDAT_ID) + data[c.offset + 12..c.offset + 8 + c.length];
      assert |tagged| == c.length;
      assert |IdatOfFdat(data, c, crc)| == 4 + |tagged| + 4;
    }
  }

  lemma {:induction false} ImageBytesSize(data: seq<Byte>, cs: seq<Chunk>, crc: Crc32)
    requires AllImageChunks(cs, data)
    ensures |ImageBytes(data, cs, crc)| == ImageSize(cs)
  {
    if |cs| > 0 {
      ImageBytesSize(data, cs[..|cs| - 1], crc);
      ImageChunkBytesSize(data, cs[|cs| - 1], crc);
    }
  }

  /** The encoded frame is exactly as long as the size computed before encoding. */
  lemma EncodedFrameSize(data: seq<Byte>, width: int, height: int, ihdrData: seq<Byte>,
                         prefixChunks: seq<Chunk>, imageChunks: seq<Chunk>, crc: Crc32)
    requires AllInStream(prefixChunks, data) && AllImageChunks(imageChunks, data)
    requires |ihdrData| == IHDR_DATA_SIZE
    ensures |EncodedFrame(data, width, height, ihdrData, prefixChunks, imageChunks, crc)| == FrameSize(prefixChunks, imageChunks)
  {
    CopiedSize(data, prefixChunks);
    ImageBytesSize(data, imageChunks, crc);
  }

  /**
   * The encoded frame is a PNG: the signature, then an IHDR of length 13 with the
   * frame's width and height and the original 5 bytes, and IEND at the end.
   */
  lemma EncodedFrameIsPng(data: seq<Byte>, width: int, height: int, ihdrData: seq<Byte>,
                          prefixChunks: seq<Chunk>, imageChunks: seq<Chunk>, crc: Crc32)
    requires AllInStream(prefixChunks, data) && AllImageChunks(imageChunks, data)
    requires |ihdrData| == IHDR_DATA_SIZE && IsInt32(width) && IsInt32(height)
    ensures var e := EncodedFrame(data, width, height, ihdrData, prefixChunks, imageChunks, crc);
      && |e| >= 8 + IHDR_CHUNK_SIZE + |PNG_END_CHUNK|
      && e[..8] == PNG_SIGNATURE
      && IntAt(e, 8) == IHDR_LENGTH
      && FourCCAt(e, 12) == IHDR_ID
      && IntAt(e, 16) == width
      && IntAt(e, 20) == height
      && e[24..29] == ihdrData
      && e[|e| - |PNG_END_CHUNK|..] == PNG_END_CHUNK
  {
    var ihdr := IhdrChunk(width, height, ihdrData, crc);
    IhdrChunkLayout(width, height, ihdrData, crc);
    var rest := Copied(data, prefixChunks) + ImageBytes(data, imageChunks, crc);
    var e := EncodedFrame(data, width, height, ihdrData, prefixChunks, imageChunks, crc);
    Associative(PNG_SIGNATURE + ihdr, Copied(data, prefixChunks), ImageBytes(data, imageChunks, crc));
    Associative(PNG_SIGNATURE + ihdr, rest, PNG_END_CHUNK);
    HeaderInside(ihdr, rest + PNG_END_CHUNK, width, height, ihdrData);
    assert e == PNG_SIGNATURE + ihdr + rest + PNG_END_CHUNK;
  }

  /** The IHDR's fields after the signature, whatever follows them. */
  lemma HeaderInside(ihdr: seq<Byte>, tail: seq<Byte>, width: int, height: int, ihdrData: seq<Byte>)
    requires |ihdr| == IHDR_CHUNK_SIZE && IntAt(ihdr, 0) == IHDR_LENGTH && FourCCAt(ihdr, 4) == IHDR_ID
    requires IntAt(ihdr, 8) == width && IntAt(ihdr, 12) == height && ihdr[16..21] == ihdrData
    ensures var e := PNG_SIGNATURE + ihdr + tail;
      && e[..8] == PNG_SIGNATURE
      && IntAt(e, 8) == IHDR_LENGTH
      && FourCCAt(e, 12) == IHDR_ID
      && IntAt(e, 16) == width
      && IntAt(e, 20) == height
      && e[24..29] == ihdrData
  {
    var e := PNG_SIGNATURE + ihdr + tail;
    IntAtInside(PNG_SIGNATURE, ihdr, tail, 0);
    IntAtInside(PNG_SIGNATURE, ihdr, tail, 4);
    IntAtInside(PNG_SIGNATURE, ihdr, tail, 8);
    IntAtInside(PNG_SIGNATURE, ihdr, tail, 12);
    assert e[24..29] == ihdr[16..21];
  }

  /** The IHDR chunk's fields at their offsets. */
  lemma IhdrChunkLayout(width: int, height: int, ihdrData: seq<Byte>, crc: Crc32)
    requires |ihdrData| == IHDR_DATA_SIZE && IsInt32(width) && IsInt32(height)
    ensures var b := IhdrChunk(width, height, ihdrData, crc);
      && |b| == IHDR_CHUNK_SIZE
      && IntAt(b, 0) == IHDR_LENGTH
      && FourCCAt(b, 4) == IHDR_ID
      && IntAt(b, 8) == width
      && IntAt(b, 12) == height
      && b[16..21] == ihdrData
  {
    var tagged := LE4(IHDR_ID) + BE4(width) + BE4(height) + ihdrData;
    var sum := BE4(I32(crc(tagged)));
    var b := IhdrChunk(width, height, ihdrData, crc);
    assert b == [] + BE4(IHDR_LENGTH) + (LE4(IHDR_ID) + BE4(width) + BE4(height) + ihdrData + sum);
    ReadIntAfterWriteInt(IHDR_LENGTH, [], LE4(IHDR_ID) + BE4(width) + BE4(height) + ihdrData + sum);
    assert b == BE4(IHDR_LENGTH) + LE4(IHDR_ID) + (BE4(width) + BE4(height) + ihdrData + sum);
    ReadFourCCAfterWriteFourCC(IHDR_ID, BE4(IHDR_LENGTH), BE4(width) + BE4(height) + ihdrData + sum);
    assert b == BE4(IHDR_LENGTH) + LE4(IHDR_ID) + BE4(width) + (BE4(height) + ihdrData + sum);
    ReadIntAfterWriteInt(width, BE4(IHDR_LENGTH) + LE4(IHDR_ID), BE4(height) + ihdrData + sum);
    assert b == BE4(IHDR_LENGTH) + LE4(IHDR_ID) + BE4(width) + BE4(height) + (ihdrData + sum);
    ReadIntAfterWriteInt(height, BE4(IHDR_LENGTH) + LE4(IHDR_ID) + BE4(width), ihdrData + sum);
  }

  /**
   * An fdAT becomes an IDAT whose length field is `len - 4`, whose body is the
   * fdAT's body after the sequence number, and whose CRC covers type and body.
   */
  lemma FdatBecomesIdat(data: seq<Byte>, c: Chunk, crc: Crc32)
    requires InStream(c, data) && c.length >= 4 && c.body.Fdat? && c.length - 4 <= MAX_LIMIT
    ensures var b := ImageChunkBytes(data, c, crc);
      && |b| == c.length + 8
      && IntAt(b, 0) == c.length - 4
      && FourCCAt(b, 4) == IDAT_ID
      && b[8..c.length + 4] == data[c.offset + 12..c.offset + 8 + c.length]
      && IntAt(b, c.length + 4) == I32(crc(b[4..c.length + 4]))
  {
    var body := data[c.offset + 12..c.offset + 8 + c.length];
    var tagged := LE4(IDAT_ID) + body;
    var sum := BE4(I32(crc(tagged)));
    var b := ImageChunkBytes(data, c, crc);
    assert b == [] + BE4(c.length - 4) + (tagged + sum);
    ReadIntAfterWriteInt(c.length - 4, [], tagged + sum);
    assert b == BE4(c.length - 4) + LE4(IDAT_ID) + (body + sum);
    ReadFourCCAfterWriteFourCC(IDAT_ID, BE4(c.length - 4), body + sum);
    assert b[4..c.length + 4] == tagged;
    assert b == (BE4(c.length - 4) + tagged) + sum + [];
    ReadIntAfterWriteInt(I32(crc(tagged)), BE4(c.length - 4) + tagged, []);
  }

  /** Prefix chunks and IDAT chunks reach the frame byte for byte. */
  lemma CopiedVerbatim(data: seq<Byte>, cs: seq<Chunk>, c: Chunk)
    requires InStream(c, data)
    requires AllInStream(cs, data)
    ensures AllInStream(cs + [c], data)
    ensures Copied(data, cs + [c]) == Copied(data, cs) + data[c.offset..ChunkEnd(c)]
    ensures PrefixSize(cs + [c]) == PrefixSize(cs) + c.length + CHUNK_OVERHEAD
  {
    assert (cs + [c])[..|cs|] == cs;
  }

  /** One more image chunk appends its bytes and its size. */
  lemma ImageBytesSnoc(data: seq<Byte>, cs: seq<Chunk>, i: int, crc: Crc32)
    requires 0 <= i < |cs| && AllImageChunks(cs, data)
    ensures AllImageChunks(cs[..i], data) && AllImageChunks(cs[..i + 1], data)
    ensures ImageBytes(data, cs[..i + 1], crc) == ImageBytes(data, cs[..i], crc) + ImageChunkBytes(data, cs[i], crc)
    ensures ImageSize(cs[..i + 1]) == ImageSize(cs[..i]) + ImageChunkSize(cs[i])
  {
    assert cs[..i + 1][..i] == cs[..i];
  }

  lemma {:induction false} PrefixSizeBound(cs: seq<Chunk>, i: int)
    requires 0 <= i <= |cs|
    requires forall k :: 0 <= k < |cs| ==> cs[k].length >= 0
    ensures 0 <= PrefixSize(cs[..i]) <= PrefixSize(cs)
    decreases |cs|
  {
    if i < |cs| {
      var init := cs[..|cs| - 1];
      assert cs[..i] == init[..i];
      PrefixSizeBound(init, i);
    } else {
      assert cs[..i] == cs;
      if |cs| > 0 {
        PrefixSizeBound(cs[..|cs| - 1], |cs| - 1);
      }
    }
  }

  lemma {:induction false} ImageSizeBound(cs: seq<Chunk>, i: int)
    requires 0 <= i <= |cs|
    requires forall k :: 0 <= k < |cs| ==> cs[k].length >= 0
    ensures 0 <= ImageSize(cs[..i]) <= ImageSize(cs)
    decreases |cs|
  {
    if i < |cs| {
      var init := cs[..|cs| - 1];
      assert cs[..i] == init[..i];
      ImageSizeBound(init, i);
    } else {
      assert cs[..i] == cs;
      if |cs| > 0 {
        ImageSizeBound(cs[..|cs| - 1], |cs| - 1);
      }
    }
  }

  // ---------------------------------------------------------------------
  // The encoder.

  /** `reader.reset(); reader.skip(from); reader.read(writer.toByteArray(), writer.position(), n); writer.skip(n)`. */
  method CopyFromStream(r: ByteBufferReader, w: ByteBufferWriter, from: int, n: int)
    requires r.Valid() && w.Valid()
    requires 0 <= from && 0 <= n && from + n <= |r.data|
    requires w.pos + n <= w.buffer.Length
    modifies r, w, w.buffer
    ensures r.Valid() && w.Valid() && w.buffer == old(w.buffer)
    ensures r.pos == from + n
    ensures w.pos == old(w.pos) + n
    ensures w.Written() == old(w.Written()) + r.data[from..from + n]
  {
    r.Reset();
    SkipForward(r.data, 0, from);
    var skipped := r.Skip(from);
    var p := w.Position();
    var copied := r.Read(w.buffer, p, n);
    assert w.buffer[..p + n] == old(w.buffer[..p]) + r.data[from..from + n];
    w.Skip(n);
  }

  method WriteIhdr(w: ByteBufferWriter, width: int, height: int, ihdrData: seq<Byte>, crc: Crc32)
    requires w.Valid() && |ihdrData| == IHDR_DATA_SIZE && w.pos + IHDR_CHUNK_SIZE <= w.buffer.Length
    modifies w, w.buffer
    ensures w.Valid() && w.buffer == old(w.buffer)
    ensures w.pos == old(w.pos) + IHDR_CHUNK_SIZE
    ensures w.Written() == old(w.Written()) + IhdrChunk(width, height, ihdrData, crc)
  {
    ghost var before := w.Written();
    WriteInt(w, IHDR_LENGTH);
    ghost var head := w.Written();
    var start := w.Position();
    WriteFourCC(w, IHDR_ID);
    WriteInt(w, width);
    Associative(head, LE4(IHDR_ID), BE4(width));
    WriteInt(w, height);
    Associative(head, LE4(IHDR_ID) + BE4(width), BE4(height));
    w.PutBytes(ihdrData);
    ghost var tagged := LE4(IHDR_ID) + BE4(width) + BE4(height) + ihdrData;
    Associative(head, LE4(IHDR_ID) + BE4(width) + BE4(height), ihdrData);
    WriteCrc(w, start, 17, head, tagged, crc);
    Associative(before, BE4(IHDR_LENGTH), tagged);
    Associative(before, BE4(IHDR_LENGTH) + tagged, BE4(I32(crc(tagged))));
  }

  /** The bytes written after `head` are the array's bytes from `|head|` to the position. */
  lemma WrittenTail(w: ByteBufferWriter, head: seq<Byte>, tail: seq<Byte>)
    requires w.Valid() && w.Written() == head + tail
    ensures w.buffer[|head|..w.pos] == tail
  {
    assert w.buffer[|head|..w.pos] == w.Written()[|head|..];
  }

  method WriteImageChunk(r: ByteBufferReader, w: ByteBufferWriter, c: Chunk, crc: Crc32)
    requires r.Valid() && w.Valid() && IsImageChunk(c, r.data)
    requires w.pos + ImageChunkSize(c) <= w.buffer.Length
    modifies r, w, w.buffer
    ensures r.Valid() && w.Valid() && w.buffer == old(w.buffer)
    ensures w.pos == old(w.pos) + ImageChunkSize(c)
    ensures w.Written() == old(w.Written()) + ImageChunkBytes(r.data, c, crc)
  {
    if c.body.Idat? {
      CopyFromStream(r, w, c.offset, c.length + CHUNK_OVERHEAD);
    } else {
      WriteIdatOfFdat(r, w, c, crc);
    }
  }

  /** The fdAT branch of the image-chunk loop. */
  method WriteIdatOfFdat(r: ByteBufferReader, w: ByteBufferWriter, c: Chunk, crc: Crc32)
    requires r.Valid() && w.Valid() && InStream(c, r.data) && c.length >= 4
    requires w.pos + c.length + 8 <= w.buffer.Length
    modifies r, w, w.buffer
    ensures r.Valid() && w.Valid() && w.buffer == old(w.buffer)
    ensures w.pos == old(w.pos) + c.length + 8
    ensures w.Written() == old(w.Written()) + IdatOfFdat(r.data, c, crc)
  {
    ghost var before := w.Written();
    ghost var tagged := LE4(IDAT_ID) + r.data[c.offset + 12..c.offset + 8 + c.length];
    WriteInt(w, c.length - 4);
    ghost var head := w.Written();
    var start := w.Position();
    WriteIdatTagged(r, w, c);
    WriteCrc(w, start, c.length, head, tagged, crc);
    ghost var sum := BE4(I32(crc(tagged)));
    assert IdatOfFdat(r.data, c, crc) == BE4(c.length - 4) + tagged + sum;
    assert w.Written() == before + (BE4(c.length - 4) + tagged + sum) by {
      Associative(before, BE4(c.length - 4), tagged);
      Associative(before, BE4(c.length - 4) + tagged, sum);
    }
  }

  /**
   * `crc32.update(writer.toByteArray(), start, len); writer.writeInt(crc32.value.toInt())`:
   * the CRC of the last `len` bytes written, appended as an `Int`.
   */
  method WriteCrc(w: ByteBufferWriter, start: int, len: int, ghost head: seq<Byte>, ghost tagged: seq<Byte>, crc: Crc32)
    requires w.Valid() && w.Written() == head + tagged && start == |head| && len == |tagged|
    requires w.pos + 4 <= w.buffer.Length
    modifies w, w.buffer
    ensures w.Valid() && w.buffer == old(w.buffer)
    ensures w.pos == old(w.pos) + 4
    ensures w.Written() == head + tagged + BE4(I32(crc(tagged)))
  {
    WrittenTail(w, head, tagged);
    var sum := crc(w.buffer[start..start + len]);
    WriteInt(w, I32(sum));
  }

  /** The IDAT type and the fdAT's body after its sequence number: the bytes the CRC covers. */
  method WriteIdatTagged(r: ByteBufferReader, w: ByteBufferWriter, c: Chunk)
    requires r.Valid() && w.Valid() && InStream(c, r.data) && c.length >= 4
    requires w.pos + c.length <= w.buffer.Length
    modifies r, w, w.buffer
    ensures r.Valid() && w.Valid() && w.buffer == old(w.buffer)
    ensures w.pos == old(w.pos) + c.length
    ensures w.Written() == old(w.Written()) + (LE4(IDAT_ID) + r.data[c.offset + 12..c.offset + 8 + c.length])
  {
    ghost var head := w.Written();
    ghost var body := r.data[c.offset + 12..c.offset + 8 + c.length];
    WriteFourCC(w, IDAT_ID);
    CopyFromStream(r, w, c.offset + 12, c.length - 4);
    assert r.data[c.offset + 12..c.offset + 12 + (c.length - 4)] == body;
    Associative(head, LE4(IDAT_ID), body);
  }

  /** The prefix-chunk loop: each chunk copied whole, in order. */
  method CopyPrefixChunks(r: ByteBufferReader, w: ByteBufferWriter, chunks: seq<Chunk>)
    requires r.Valid() && w.Valid() && AllInStream(chunks, r.data)
    requires w.pos + PrefixSize(chunks) <= w.buffer.Length
    modifies r, w, w.buffer
    ensures r.Valid() && w.Valid() && w.buffer == old(w.buffer)
    ensures w.pos == old(w.pos) + PrefixSize(chunks)
    ensures w.Written() == old(w.Written()) + Copied(r.data, chunks)
  {
    ghost var start := w.pos;
    ghost var head := w.Written();
    for i := 0 to |chunks|
      invariant r.Valid() && w.Valid() && w.buffer == old(w.buffer)
      invariant w.pos == start + PrefixSize(chunks[..i])
      invariant w.Written() == head + Copied(r.data, chunks[..i])
    {
      CopyNextPrefixChunk(r, w, chunks, i, start, head);
    }
    assert chunks[..|chunks|] == chunks;
  }

  /** One turn of the prefix-chunk loop. */
  method CopyNextPrefixChunk(r: ByteBufferReader, w: ByteBufferWriter, chunks: seq<Chunk>, i: int,
                             ghost start: int, ghost head: seq<Byte>)
    requires r.Valid() && w.Valid() && AllInStream(chunks, r.data) && 0 <= i < |chunks|
    requires start + PrefixSize(chunks) <= w.buffer.Length
    requires w.pos == start + PrefixSize(chunks[..i])
    requires w.Written() == head + Copied(r.data, chunks[..i])
    modifies r, w, w.buffer
    ensures r.Valid() && w.Valid() && w.buffer == old(w.buffer)
    ensures w.pos == start + PrefixSize(chunks[..i + 1])
    ensures w.Written() == head + Copied(r.data, chunks[..i + 1])
  {
    PrefixSizeBound(chunks, i + 1);
    var c := chunks[i];
    assert chunks[..i + 1] == chunks[..i] + [c];
    CopiedVerbatim(r.data, chunks[..i], c);
    CopyFromStream(r, w, c.offset, c.length + CHUNK_OVERHEAD);
    Associative(head, Copied(r.data, chunks[..i]), r.data[c.offset..ChunkEnd(c)]);
  }

  /** The image-chunk loop: IDATs copied, fdATs rewritten, in order. */
  method WriteImageChunks(r: ByteBufferReader, w: ByteBufferWriter, chunks: seq<Chunk>, crc: Crc32)
    requires r.Valid() && w.Valid() && AllImageChunks(chunks, r.data)
    requires w.pos + ImageSize(chunks) <= w.buffer.Length
    modifies r, w, w.buffer
    ensures r.Valid() && w.Valid() && w.buffer == old(w.buffer)
    ensures w.pos == old(w.pos) + ImageSize(chunks)
    ensures w.Written() == old(w.Written()) + ImageBytes(r.data, chunks, crc)
  {
    ghost var start := w.pos;
    ghost var head := w.Written();
    for i := 0 to |chunks|
      invariant r.Valid() && w.Valid() && w.buffer == old(w.buffer)
      invariant w.pos == start + ImageSize(chunks[..i])
      invariant w.Written() == head + ImageBytes(r.data, chunks[..i], crc)
    {
      WriteNextImageChunk(r, w, chunks, i, crc, start, head);
    }
    assert chunks[..|chunks|] == chunks;
  }

  /** One turn of the image-chunk loop. */
  method WriteNextImageChunk(r: ByteBufferReader, w: ByteBufferWriter, chunks: seq<Chunk>, i: int, crc: Crc32,
                             ghost start: int, ghost head: seq<Byte>)
    requires r.Valid() && w.Valid() && AllImageChunks(chunks, r.data) && 0 <= i < |chunks|
    requires start + ImageSize(chunks) <= w.buffer.Length
    requires w.pos == start + ImageSize(chunks[..i])
    requires w.Written() == head + ImageBytes(r.data, chunks[..i], crc)
    modifies r, w, w.buffer
    ensures r.Valid() && w.Valid() && w.buffer == old(w.buffer)
    ensures w.pos == start + ImageSize(chunks[..i + 1])
    ensures w.Written() == head + ImageBytes(r.data, chunks[..i + 1], crc)
  {
    ImageSizeBound(chunks, i + 1);
    ImageBytesSnoc(r.data, chunks, i, crc);
    WriteImageChunk(r, w, chunks[i], crc);
    Associative(head, ImageBytes(r.data, chunks[..i], crc), ImageChunkBytes(r.data, chunks[i], crc));
  }

  lemma Associative(a: seq<Byte>, b: seq<Byte>, c: seq<Byte>)
    ensures a + b + c == a + (b + c)
  {
  }

  /**
   * `encode`: the writer is reset to the frame's size, which then holds exactly
   * the encoded frame; nothing is written past that size.
   */
  method Encode(r: ByteBufferReader, w: ByteBufferWriter, width: int, height: int, ihdrData: seq<Byte>,
                prefixChunks: seq<Chunk>, imageChunks: seq<Chunk>, crc: Crc32)
    requires r.Valid() && w.Valid()
    requires |ihdrData| == IHDR_DATA_SIZE
    requires AllInStream(prefixChunks, r.data) && AllImageChunks(imageChunks, r.data)
    modifies r, w, w.buffer
    ensures r.Valid() && w.Valid()
    ensures w.pos == FrameSize(prefixChunks, imageChunks) <= w.buffer.Length
    ensures w.Written() == EncodedFrame(r.data, width, height, ihdrData, prefixChunks, imageChunks, crc)
  {
    PrefixSizeBound(prefixChunks, 0);
    ImageSizeBound(imageChunks, 0);
    ghost var ihdr := IhdrChunk(width, height, ihdrData, crc);
    ghost var copied := Copied(r.data, prefixChunks);
    ghost var image := ImageBytes(r.data, imageChunks, crc);
    w.Reset(FrameSize(prefixChunks, imageChunks));
    assert w.Written() == [];
    w.PutBytes(PNG_SIGNATURE);
    assert w.Written() == PNG_SIGNATURE;
    WriteIhdr(w, width, height, ihdrData, crc);
    assert w.Written() == PNG_SIGNATURE + ihdr;
    CopyPrefixChunks(r, w, prefixChunks);
    assert w.Written() == PNG_SIGNATURE + ihdr + copied;
    WriteImageChunks(r, w, imageChunks, crc);
    assert w.Written() == PNG_SIGNATURE + ihdr + copied + image;
    w.PutBytes(PNG_END_CHUNK);
  }
}
