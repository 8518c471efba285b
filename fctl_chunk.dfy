/**
 * The `fcTL` (frame control) chunk of the APNG specification: its body parser,
 * which reads nine fields in a fixed order, and the disposal and blend codes.
 * The documented constraints on a frame's geometry are stated by `FitsCanvas`.
 */
module FCTLChunks {
  import opened Bytes
  import opened Results
  import opened ByteBufferReaders
  import opened APNGReaders
  import opened APNGChunks

  /** The frame's region is left as it is before the next frame. */
  const APNG_DISPOSE_OP_NON: int := 0
  /** The frame's region is cleared to transparent black before the next frame. */
  const APNG_DISPOSE_OP_BACKGROUND: int := 1
  /** The frame's region goes back to what it was before this frame. */
  const APNG_DISPOSE_OP_PREVIOUS: int := 2
  /** The frame replaces its region, alpha included. */
  const APNG_BLEND_OP_SOURCE: int := 0
  /** The frame is composited over its region. */
  const APNG_BLEND_OP_OVER: int := 1

  /** The body's size: five `Int`s, two `Short`s and two bytes. */
  const FCTL_BODY_SIZE: int := 26

  /**
   * The fields at `p`: sequence number, width, height, x and y offsets (BE32),
   * delay numerator and denominator (BE16, signed), dispose and blend (signed bytes).
   */
  function FctlAt(data: seq<Byte>, p: int): (r: Result<Parsed<FctlFields>>)
    requires 0 <= p <= |data|
    ensures r.Ok? <==> p + FCTL_BODY_SIZE <= |data|
    ensures r.Ok? ==> r.value.next == p + FCTL_BODY_SIZE
    ensures r.Err? ==> r.error == Underflow
  {
    if p + FCTL_BODY_SIZE <= |data| then
      Ok(Parsed(FctlFields(
        IntAt(data, p), IntAt(data, p + 4), IntAt(data, p + 8), IntAt(data, p + 12), IntAt(data, p + 16),
        ShortAt(data, p + 20), ShortAt(data, p + 22),
        SignedByte(data[p + 24]), SignedByte(data[p + 25])), p + FCTL_BODY_SIZE))
    else
      Err(Underflow)
  }

  /** The `Parser`'s initialisers, which read the fields one after another. */
  method ParseFctl(r: ByteBufferReader) returns (res: Result<FctlFields>)
    requires r.Valid()
    modifies r
    ensures r.Valid()
    ensures var spec := FctlAt(r.data, old(r.pos));
      && (res.Ok? <==> spec.Ok?)
      && (res.Ok? ==> res.value == spec.value.value && r.pos == spec.value.next)
      && (res.Err? ==> res.error == Underflow)
  {
    var head :- ReadFrameRect(r);
    var tail :- ReadTiming(r);
    res := Ok(FctlFields(head.0, head.1, head.2, head.3, head.4, tail.0, tail.1, tail.2, tail.3));
  }

  /** The first 20 bytes: sequence number, width, height and the two offsets. */
  method ReadFrameRect(r: ByteBufferReader) returns (res: Result<(int, int, int, int, int)>)
    requires r.Valid()
    modifies r
    ensures r.Valid()
    ensures res.Ok? <==> old(r.pos) + 20 <= |r.data|
    ensures res.Ok? ==> r.pos == old(r.pos) + 20
    ensures res.Ok? ==>
      res.value == (IntAt(r.data, old(r.pos)), IntAt(r.data, old(r.pos) + 4), IntAt(r.data, old(r.pos) + 8),
       IntAt(r.data, old(r.pos) + 12), IntAt(r.data, old(r.pos) + 16))
    ensures res.Err? ==> res.error == Underflow
  {
    var sequenceNumber :- ReadInt(r);
    var width :- ReadInt(r);
    var height :- ReadInt(r);
    var xOffset :- ReadInt(r);
    var yOffset :- ReadInt(r);
    res := Ok((sequenceNumber, width, height, xOffset, yOffset));
  }

  /** The last 6 bytes: delay numerator and denominator, dispose op and blend op. */
  method ReadTiming(r: ByteBufferReader) returns (res: Result<(int, int, int, int)>)
    requires r.Valid()
    modifies r
    ensures r.Valid()
    ensures res.Ok? <==> old(r.pos) + 6 <= |r.data|
    ensures res.Ok? ==> r.pos == old(r.pos) + 6
    ensures res.Ok? ==>
      res.value == (ShortAt(r.data, old(r.pos)), ShortAt(r.data, old(r.pos) + 2),
       SignedByte(r.data[old(r.pos) + 4]), SignedByte(r.data[old(r.pos) + 5]))
    ensures res.Err? ==> res.error == Underflow
  {
    var delayNum :- ReadShort(r);
    var delayDen :- ReadShort(r);
    var disposeOp :- r.Peek();
    var blendOp :- r.Peek();
    res := Ok((delayNum, delayDen, SignedByte(disposeOp), SignedByte(blendOp)));
  }

  /** `toChunk`: the header from the prefix, the parsed fields and the CRC, all unchanged. */
  function ToChunk(fields: FctlFields, prefix: ChunkPrefix, crc: int): (c: Chunk)
    ensures c.offset == prefix.offset && c.length == prefix.length && c.fourCC == prefix.fourCC
    ensures c.crc == crc && c.body.Fctl? && c.body.fctl == fields
  {
    Chunk(prefix.offset, prefix.length, prefix.fourCC, crc, Fctl(fields))
  }

  /** The documented constraints: a non-empty frame at a non-negative offset inside the canvas. */
  predicate FitsCanvas(f: FctlFields, canvasWidth: int, canvasHeight: int)
  {
    && f.xOffset >= 0 && f.yOffset >= 0 && f.width > 0 && f.height > 0
    && f.xOffset + f.width <= canvasWidth && f.yOffset + f.height <= canvasHeight
  }
}
