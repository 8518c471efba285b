/**
 * One frame of an animated WebP as a stand-alone still WebP (RFC 9649): the
 * RIFF header, a VP8X chunk carrying the frame's size and alpha flag, and the
 * frame's image data copied verbatim from the ANMF payload. The encoder sizes
 * its writer for exactly those bytes and reports that size.
 */
module WebPFrames {
  import opened Bytes
  import opened Results
  import opened ByteBufferReaders
  import opened ByteBufferWriters
  import opened WebPReaders
  import opened WebPWriters
  import opened WebPParsers

  /** The RIFF header (12 bytes) and the VP8X chunk (8 + 10) in front of the image data. */
  const FRAME_HEADER_SIZE: int := 30

  /** The RIFF size field counts the file from offset 8 on (section 2.5). */
  const RIFF_SIZE_EXCLUDES: int := 8

  /** The duration a frame whose ANMF duration is 0 gets. */
  const DEFAULT_DURATION: int := 100

  /**
   * An animated WebP frame: position, size and duration from its ANMF header;
   * where its image data lies in the stream; its blending and disposal flags and
   * whether it has an ALPH chunk.
   */
  datatype AnimationFrame = AnimationFrame(
    x: int, y: int, width: int, height: int,
    duration: int,
    imagePayloadOffset: int, imagePayloadSize: int,
    blendingMethod: bool, disposalMethod: bool, useAlpha: bool)

  /** The frame `AnimationFrame`'s constructor builds from a parsed ANMF chunk. */
  function NewAnimationFrame(c: Chunk): AnimationFrame
    requires c.body.Anmf?
  {
    var b := c.body;
    AnimationFrame(
      b.frameX, b.frameY, b.frameWidth, b.frameHeight,
      if b.frameDuration == 0 then DEFAULT_DURATION else b.frameDuration,
      c.offset + CHUNK_HEADER_OFFSET + ANMF_HEADER_SIZE,
      c.payloadSize - ANMF_HEADER_SIZE + c.payloadSize % 2,
      b.BlendingMethod(), b.DisposalMethod(), b.HasAlph())
  }

  /** The frame's image data lies within the stream. */
  predicate FrameInStream(f: AnimationFrame, data: seq<Byte>)
  {
    0 <= f.imagePayloadOffset && 0 <= f.imagePayloadSize && f.imagePayloadOffset + f.imagePayloadSize <= |data|
  }

  /**
   * A frame built from a parsed ANMF chunk: its image data is the rest of the
   * padded payload after the 16-byte header, inside the stream, and starts with
   * the frame's own chunks; sizes are 1-based 24-bit values, the duration is never 0,
   * and the flags and the alpha test are those of the chunk.
   */
  lemma FrameOfParsedChunk(data: seq<Byte>, p: int) returns (stop: int)
    requires 0 <= p <= |data| <= MAX_LIMIT
    requires ChunkAt(data, p).Ok? && ChunkAt(data, p).value.value.body.Anmf?
    ensures var c := ChunkAt(data, p).value.value;
      var f := NewAnimationFrame(c);
      && FrameInStream(f, data)
      && f.imagePayloadOffset == p + CHUNK_HEADER_OFFSET + ANMF_HEADER_SIZE
      && f.imagePayloadOffset + f.imagePayloadSize == ChunkEnd(c)
      && f.imagePayloadOffset <= stop <= ChunkEnd(c)
      && Tiles(c.body.subChunks, f.imagePayloadOffset, stop)
      && 0 <= f.x < TWO_24 && 0 <= f.y < TWO_24
      && 1 <= f.width <= TWO_24 && 1 <= f.height <= TWO_24
      && 1 <= f.duration < TWO_24
      && (c.body.frameDuration != 0 ==> f.duration == c.body.frameDuration)
      && (f.blendingMethod <==> HasBit(c.body.flags, FLAG_BLENDING_METHOD))
      && (f.disposalMethod <==> HasBit(c.body.flags, FLAG_DISPOSAL_METHOD))
      && (f.useAlpha <==> exists i | 0 <= i < |c.body.subChunks| :: c.body.subChunks[i].fourCC == ALPH_ID)
  {
    var c := ChunkAt(data, p).value.value;
    stop := AnmfLayout(data, p);
    PaddedSize(c.payloadSize);
    assert forall i | 0 <= i < |c.body.subChunks| :: WellFormed(c.body.subChunks[i]);
  }

  // ---------------------------------------------------------------------
  // The encoded frame.

  /** The VP8X flags byte: only the alpha bit, set when the frame has an ALPH chunk. */
  function Vp8xFlags(useAlpha: bool): Byte
  {
    if useAlpha then FLAG_ALPHA else 0
  }

  /** The image data is copied after the header. */
  function EncodedSize(f: AnimationFrame): int
  {
    FRAME_HEADER_SIZE + f.imagePayloadSize
  }

  /** "RIFF", the size field, "WEBP". */
  function RiffHeader(riffSize: int): seq<Byte>
  {
    RIFF_BYTES + LE4(riffSize) + WEBP_BYTES
  }

  /** The VP8X payload: flags, 24 reserved bits, width and height less one. */
  function Vp8xPayload(f: AnimationFrame): seq<Byte>
  {
    [Vp8xFlags(f.useAlpha)] + LE3(0) + LE3(f.width - 1) + LE3(f.height - 1)
  }

  /** The VP8X chunk: its FourCC, its size 10 and its payload. */
  function Vp8xChunk(f: AnimationFrame): seq<Byte>
  {
    LE4(VP8X_ID) + LE4(VP8X_PAYLOAD_SIZE) + Vp8xPayload(f)
  }

  /** The header `encode` should write: the RIFF size counts what follows the size field. */
  function FrameHeader(f: AnimationFrame): seq<Byte>
  {
    RiffHeader(EncodedSize(f) - RIFF_SIZE_EXCLUDES) + Vp8xChunk(f)
  }

  /** The header as the source writes it: the RIFF size field holds the whole length. */
  function FrameHeaderAsWritten(f: AnimationFrame): seq<Byte>
  {
    RiffHeader(EncodedSize(f)) + Vp8xChunk(f)
  }

  /** The still WebP for the frame: the header, then the image data from the stream. */
  function EncodedFrame(data: seq<Byte>, f: AnimationFrame): seq<Byte>
    requires FrameInStream(f, data)
  {
    FrameHeader(f) + data[f.imagePayloadOffset..f.imagePayloadOffset + f.imagePayloadSize]
  }

  // ---------------------------------------------------------------------
  // Properties of the encoding.

  /** The FourCCs the writer puts are the bytes the header check matches. */
  lemma FourCCBytes()
    ensures LowBytes(RIFF) == RIFF_BYTES && LowBytes(WEBP) == WEBP_BYTES
  {
  }

  /** Fields read the same wherever their bytes sit behind a prefix. */
  lemma ReadShifted(pre: seq<Byte>, x: seq<Byte>, k: int)
    requires 0 <= k
    ensures k + 4 <= |x| ==> UInt32At(pre + x, |pre| + k) == UInt32At(x, k)
    ensures k + 3 <= |x| ==> LE24At(pre + x, |pre| + k) == LE24At(x, k)
    ensures k < |x| ==> (pre + x)[|pre| + k] == x[k]
    ensures (pre + x)[|pre|..] == x
  {
    var d := pre + x;
    if k + 4 <= |x| {
      assert d[|pre| + k] == x[k] && d[|pre| + k + 1] == x[k + 1] && d[|pre| + k + 2] == x[k + 2] && d[|pre| + k + 3] == x[k + 3];
    } else if k + 3 <= |x| {
      assert d[|pre| + k] == x[k] && d[|pre| + k + 1] == x[k + 1] && d[|pre| + k + 2] == x[k + 2];
    }
  }

  lemma RiffHeaderLayout(riffSize: int, tail: seq<Byte>)
    requires IsInt32(riffSize)
    ensures |RiffHeader(riffSize)| == 12
    ensures var e := RiffHeader(riffSize) + tail;
      && e[..4] == RIFF_BYTES && e[8..12] == WEBP_BYTES
      && UInt32At(e, 4) == riffSize
  {
    var e := RiffHeader(riffSize) + tail;
    assert e == RIFF_BYTES + LE4(riffSize) + (WEBP_BYTES + tail);
    ReadUInt32AfterPutUInt32(riffSize, RIFF_BYTES, WEBP_BYTES + tail);
  }

  lemma Vp8xPayloadLayout(f: AnimationFrame, tail: seq<Byte>)
    requires 1 <= f.width <= TWO_24 && 1 <= f.height <= TWO_24
    ensures |Vp8xPayload(f)| == VP8X_PAYLOAD_SIZE
    ensures var e := Vp8xPayload(f) + tail;
      && e[0] == Vp8xFlags(f.useAlpha)
      && LE24At(e, 4) + 1 == f.width
      && LE24At(e, 7) + 1 == f.height
  {
    var head := [Vp8xFlags(f.useAlpha)] + LE3(0);
    var e := Vp8xPayload(f) + tail;
    assert e == head + LE3(f.width - 1) + (LE3(f.height - 1) + tail);
    Read1BasedAfterPut1Based(f.width, head, LE3(f.height - 1) + tail);
    assert e == head + LE3(f.width - 1) + LE3(f.height - 1) + tail;
    Read1BasedAfterPut1Based(f.height, head + LE3(f.width - 1), tail);
  }

  lemma Vp8xChunkLayout(f: AnimationFrame, tail: seq<Byte>)
    ensures |Vp8xChunk(f)| == CHUNK_HEADER_OFFSET + VP8X_PAYLOAD_SIZE
    ensures var e := Vp8xChunk(f) + tail;
      && UInt32At(e, 0) == VP8X_ID
      && UInt32At(e, 4) == VP8X_PAYLOAD_SIZE
      && e[8..] == Vp8xPayload(f) + tail
  {
    var e := Vp8xChunk(f) + tail;
    assert e == [] + LE4(VP8X_ID) + (LE4(VP8X_PAYLOAD_SIZE) + Vp8xPayload(f) + tail);
    ReadUInt32AfterPutUInt32(VP8X_ID, [], LE4(VP8X_PAYLOAD_SIZE) + Vp8xPayload(f) + tail);
    assert e == LE4(VP8X_ID) + LE4(VP8X_PAYLOAD_SIZE) + (Vp8xPayload(f) + tail);
    ReadUInt32AfterPutUInt32(VP8X_PAYLOAD_SIZE, LE4(VP8X_ID), Vp8xPayload(f) + tail);
  }

  /** The fields of a header and what follows it, at their offsets. */
  lemma HeaderLayout(f: AnimationFrame, riffSize: int, tail: seq<Byte>)
    requires IsInt32(riffSize) && 1 <= f.width <= TWO_24 && 1 <= f.height <= TWO_24
    ensures |RiffHeader(riffSize) + Vp8xChunk(f)| == FRAME_HEADER_SIZE
    ensures var e := RiffHeader(riffSize) + Vp8xChunk(f) + tail;
      && e[..4] == RIFF_BYTES && e[8..12] == WEBP_BYTES
      && UInt32At(e, 4) == riffSize
      && UInt32At(e, 12) == VP8X_ID
      && UInt32At(e, 16) == VP8X_PAYLOAD_SIZE
      && e[20] == Vp8xFlags(f.useAlpha)
      && LE24At(e, 24) + 1 == f.width
      && LE24At(e, 27) + 1 == f.height
      && e[FRAME_HEADER_SIZE..] == tail
  {
    var riff := RiffHeader(riffSize);
    var rest := Vp8xChunk(f) + tail;
    var payload := Vp8xPayload(f) + tail;
    var e := riff + Vp8xChunk(f) + tail;
    assert e == riff + rest;
    RiffHeaderLayout(riffSize, rest);
    Vp8xChunkLayout(f, tail);
    Vp8xPayloadLayout(f, tail);
    ReadShifted(riff, rest, 0);
    ReadShifted(riff, rest, 4);
    ReadShifted(riff, rest, 8);
    ReadShifted(riff, rest, 12);
    ReadShifted(riff, rest, 15);
    assert rest == LE4(VP8X_ID) + LE4(VP8X_PAYLOAD_SIZE) + payload;
    ReadShifted(LE4(VP8X_ID) + LE4(VP8X_PAYLOAD_SIZE), payload, 0);
    ReadShifted(LE4(VP8X_ID) + LE4(VP8X_PAYLOAD_SIZE), payload, 4);
    ReadShifted(LE4(VP8X_ID) + LE4(VP8X_PAYLOAD_SIZE), payload, 7);
    assert payload == Vp8xPayload(f) + tail;
    ReadShifted(Vp8xPayload(f), tail, 0);
    assert e[FRAME_HEADER_SIZE..] == rest[18..] == payload[10..] == tail;
  }

  /**
   * The encoded frame is a still WebP that the container parser reads back: the
   * header matches, the RIFF size counts the bytes after the size field, the first
   * chunk is a VP8X of the frame's size whose alpha flag says whether the frame
   * has an ALPH chunk and whose animation flag is clear, and the image data follows it.
   */
  lemma EncodedFrameParses(data: seq<Byte>, f: AnimationFrame)
    requires FrameInStream(f, data)
    requires 1 <= f.width <= TWO_24 && 1 <= f.height <= TWO_24
    requires EncodedSize(f) <= MAX_LIMIT
    ensures var e := EncodedFrame(data, f);
      && |e| == EncodedSize(f)
      && HeaderAt(e, 0) == Ok(true)
      && UInt32At(e, 4) == |e| - RIFF_SIZE_EXCLUDES
      && ChunkAt(e, 12) == Ok(Parsed(Chunk(12, VP8X_ID, VP8X_PAYLOAD_SIZE, Vp8x(Vp8xFlags(f.useAlpha), f.width, f.height)), FRAME_HEADER_SIZE))
      && (Vp8x(Vp8xFlags(f.useAlpha), f.width, f.height).Alpha() <==> f.useAlpha)
      && !Vp8x(Vp8xFlags(f.useAlpha), f.width, f.height).Animation()
      && e[FRAME_HEADER_SIZE..] == data[f.imagePayloadOffset..f.imagePayloadOffset + f.imagePayloadSize]
  {
    var payload := data[f.imagePayloadOffset..f.imagePayloadOffset + f.imagePayloadSize];
    var e := EncodedFrame(data, f);
    assert e == RiffHeader(EncodedSize(f) - RIFF_SIZE_EXCLUDES) + Vp8xChunk(f) + payload;
    HeaderLayout(f, EncodedSize(f) - RIFF_SIZE_EXCLUDES, payload);
    HeaderParses(f, EncodedSize(f) - RIFF_SIZE_EXCLUDES, payload);
    FlagsRead(f.useAlpha);
  }

  /** The flags byte has the alpha bit exactly when asked for, and never the animation bit. */
  lemma FlagsRead(useAlpha: bool)
    ensures HasBit(Vp8xFlags(useAlpha), FLAG_ALPHA) <==> useAlpha
    ensures !HasBit(Vp8xFlags(useAlpha), FLAG_ANIMATION)
  {
  }

  /** Whatever follows it, a header passes the header check and starts with its VP8X chunk. */
  lemma HeaderParses(f: AnimationFrame, riffSize: int, tail: seq<Byte>)
    requires IsInt32(riffSize) && 1 <= f.width <= TWO_24 && 1 <= f.height <= TWO_24
    requires FRAME_HEADER_SIZE + |tail| <= MAX_LIMIT
    ensures var e := RiffHeader(riffSize) + Vp8xChunk(f) + tail;
      && HeaderAt(e, 0) == Ok(true)
      && ChunkAt(e, 12) == Ok(Parsed(Chunk(12, VP8X_ID, VP8X_PAYLOAD_SIZE, Vp8x(Vp8xFlags(f.useAlpha), f.width, f.height)), FRAME_HEADER_SIZE))
  {
    var e := RiffHeader(riffSize) + Vp8xChunk(f) + tail;
    HeaderLayout(f, riffSize, tail);
    SignatureGate(e, 0);
    Vp8xChunkParses(e, Vp8xFlags(f.useAlpha), f.width, f.height);
  }

  /** A VP8X chunk of size 10 at offset 12 parses to its flags and its 1-based sizes and ends at 30. */
  lemma Vp8xChunkParses(e: seq<Byte>, flags: Byte, width: int, height: int)
    requires FRAME_HEADER_SIZE <= |e| <= MAX_LIMIT
    requires UInt32At(e, 12) == VP8X_ID && UInt32At(e, 16) == VP8X_PAYLOAD_SIZE
    requires e[20] == flags && LE24At(e, 24) + 1 == width && LE24At(e, 27) + 1 == height
    ensures ChunkAt(e, 12) == Ok(Parsed(Chunk(12, VP8X_ID, VP8X_PAYLOAD_SIZE, Vp8x(flags, width, height)), FRAME_HEADER_SIZE))
  {
    var body := Vp8x(flags, width, height);
    assert BodyAt(VP8X_ID, VP8X_PAYLOAD_SIZE, e, 20) == Ok(Parsed(body, FRAME_HEADER_SIZE));
    assert Padded(VP8X_PAYLOAD_SIZE) == VP8X_PAYLOAD_SIZE;
  }

  /**
   * As the source writes it, the RIFF size field holds the whole length, 8 more
   * than the bytes that follow the field: for the smallest frame, 30 instead of 22.
   */
  lemma RiffSizeAsWritten(data: seq<Byte>, f: AnimationFrame)
    requires FrameInStream(f, data)
    requires 1 <= f.width <= TWO_24 && 1 <= f.height <= TWO_24
    requires EncodedSize(f) <= MAX_LIMIT
    ensures var e := FrameHeaderAsWritten(f) + data[f.imagePayloadOffset..f.imagePayloadOffset + f.imagePayloadSize];
      && UInt32At(e, 4) == |e|
      && UInt32At(e, 4) != |e| - RIFF_SIZE_EXCLUDES
    ensures f.imagePayloadSize == 0 ==> UInt32At(FrameHeaderAsWritten(f), 4) == 30 && |FrameHeaderAsWritten(f)| - 8 == 22
  {
    var payload := data[f.imagePayloadOffset..f.imagePayloadOffset + f.imagePayloadSize];
    HeaderLayout(f, EncodedSize(f), payload);
    HeaderLayout(f, EncodedSize(f), []);
    assert FrameHeaderAsWritten(f) + [] == FrameHeaderAsWritten(f);
  }

  // ---------------------------------------------------------------------
  // The encoder.

  /** The first 12 bytes `encode` puts. */
  method PutRiffHeader(w: ByteBufferWriter, riffSize: int)
    requires w.Valid() && w.pos + 12 <= w.buffer.Length
    modifies w, w.buffer
    ensures w.Valid() && w.buffer == old(w.buffer)
    ensures w.pos == old(w.pos) + 12
    ensures w.Written() == old(w.Written()) + RiffHeader(riffSize)
  {
    FourCCBytes();
    PutFourCC(w, RIFF);
    PutUInt32(w, riffSize);
    PutFourCC(w, WEBP);
  }

  /** The VP8X chunk `encode` puts after the RIFF header. */
  method PutVp8xChunk(w: ByteBufferWriter, f: AnimationFrame)
    requires w.Valid() && w.pos + CHUNK_HEADER_OFFSET + VP8X_PAYLOAD_SIZE <= w.buffer.Length
    modifies w, w.buffer
    ensures w.Valid() && w.buffer == old(w.buffer)
    ensures w.pos == old(w.pos) + CHUNK_HEADER_OFFSET + VP8X_PAYLOAD_SIZE
    ensures w.Written() == old(w.Written()) + Vp8xChunk(f)
  {
    ghost var head := w.Written();
    PutUInt32(w, VP8X_ID);
    PutUInt32(w, VP8X_PAYLOAD_SIZE);
    ghost var mid := w.Written();
    assert mid == head + (LE4(VP8X_ID) + LE4(VP8X_PAYLOAD_SIZE));
    PutVp8xPayload(w, f);
  }

  method PutVp8xPayload(w: ByteBufferWriter, f: AnimationFrame)
    requires w.Valid() && w.pos + VP8X_PAYLOAD_SIZE <= w.buffer.Length
    modifies w, w.buffer
    ensures w.Valid() && w.buffer == old(w.buffer)
    ensures w.pos == old(w.pos) + VP8X_PAYLOAD_SIZE
    ensures w.Written() == old(w.Written()) + Vp8xPayload(f)
  {
    w.PutByte(Vp8xFlags(f.useAlpha));
    PutUInt24(w, 0);
    Put1Based(w, f.width);
    Put1Based(w, f.height);
  }

  /**
   * `encode`: the writer is reset to the frame's size; the header is put, and the
   * image data is read from the stream into the array right after it. The
   * writer's position stays at the end of the header; the size is returned.
   */
  method Encode(f: AnimationFrame, r: ByteBufferReader, w: ByteBufferWriter) returns (size: int)
    requires r.Valid() && w.Valid() && FrameInStream(f, r.data)
    modifies r, w, w.buffer
    ensures r.Valid() && w.Valid()
    ensures size == EncodedSize(f) <= w.buffer.Length
    ensures w.pos == FRAME_HEADER_SIZE
    ensures w.buffer[..size] == EncodedFrame(r.data, f)
  {
    size := FRAME_HEADER_SIZE + f.imagePayloadSize;
    w.Reset(size);
    PutFrameHeader(w, f);
    r.Reset();
    SkipForward(r.data, 0, f.imagePayloadOffset);
    var skipped := r.Skip(f.imagePayloadOffset);
    var a := w.ToByteArray();
    var p := w.Position();
    ghost var before := a[..];
    var copied := r.Read(a, p, f.imagePayloadSize);
    PrefixOfSplice(a[..], before[..p], r.data[f.imagePayloadOffset..f.imagePayloadOffset + f.imagePayloadSize], before[p + f.imagePayloadSize..]);
  }

  /** The header of `encode`, put at the start of a writer just reset. */
  method PutFrameHeader(w: ByteBufferWriter, f: AnimationFrame)
    requires w.Valid() && w.pos == 0 && FRAME_HEADER_SIZE <= w.buffer.Length
    modifies w, w.buffer
    ensures w.Valid() && w.buffer == old(w.buffer)
    ensures w.pos == FRAME_HEADER_SIZE
    ensures w.Written() == FrameHeader(f)
  {
    assert w.Written() == [];
    PutRiffHeader(w, EncodedSize(f) - RIFF_SIZE_EXCLUDES);
    PutVp8xChunk(w, f);
  }

  /** The bytes in front of the tail of `h + d + t` are `h + d`. */
  lemma PrefixOfSplice(a: seq<Byte>, h: seq<Byte>, d: seq<Byte>, t: seq<Byte>)
    requires a == h + d + t
    ensures a[..|h| + |d|] == h + d
  {
  }
}
