/**
 * The WebP container walker (RFC 9649, sections 2.4 to 2.7): the 12-byte
 * `RIFF size WEBP` header, then `FourCC | size | payload` chunks until nothing
 * remains. Each chunk's payload is padded to an even length; a body parser that
 * read more than the padded payload is an error, one that read less is skipped
 * to its end. An ANMF payload holds a 16-byte frame header followed by the
 * frame's own chunks (ALPH, VP8, VP8L, unknown), parsed by the same walker.
 */
module WebPParsers {
  import opened Bytes
  import opened Results
  import opened ByteBufferReaders
  import opened WebPReaders
  import APNGChunks
  import APNGReaders

  /** The `ID` of each chunk class: `fourCCToInt` of its name (`ChunkIds` proves it). */
  const VP8X_ID: int := 0x5838_5056
  const ANIM_ID: int := 0x4D49_4E41
  const ANMF_ID: int := 0x464D_4E41
  const ALPH_ID: int := 0x4850_4C41
  const VP8_ID: int := 0x2038_5056
  const VP8L_ID: int := 0x4C38_5056
  const ICCP_ID: int := 0x5043_4349
  const XMP_ID: int := 0x2050_4D58
  const EXIF_ID: int := 0x4649_5845

  /** FourCC and size in front of every payload. */
  const CHUNK_HEADER_OFFSET: int := 8

  /** Flags, 24 reserved bits, canvas width and height. */
  const VP8X_PAYLOAD_SIZE: int := 10

  /** Background colour and loop count. */
  const ANIM_PAYLOAD_SIZE: int := 6

  /** Frame X, Y, width, height and duration (24 bits each) and the flags byte. */
  const ANMF_HEADER_SIZE: int := 16

  /** The VP8X flag bits (section 2.7): alpha and animation. */
  const FLAG_ALPHA: int := 0x10
  const FLAG_ANIMATION: int := 0x02

  /** The ANMF flag bits (section 2.7.1.1): blending method and disposal method. */
  const FLAG_BLENDING_METHOD: int := 0x02
  const FLAG_DISPOSAL_METHOD: int := 0x01

  const RIFF: string := "RIFF"
  const WEBP: string := "WEBP"

  /** The bytes of "RIFF" and "WEBP". */
  const RIFF_BYTES: seq<Byte> := [0x52, 0x49, 0x46, 0x46]
  const WEBP_BYTES: seq<Byte> := [0x57, 0x45, 0x42, 0x50]

  /** Each chunk class's code is its name packed by `fourCCToInt`. */
  lemma ChunkIds()
    ensures VP8X_ID == APNGChunks.FourCCToInt("VP8X") && ANIM_ID == APNGChunks.FourCCToInt("ANIM")
    ensures ANMF_ID == APNGChunks.FourCCToInt("ANMF") && ALPH_ID == APNGChunks.FourCCToInt("ALPH")
    ensures VP8_ID == APNGChunks.FourCCToInt("VP8 ") && VP8L_ID == APNGChunks.FourCCToInt("VP8L")
    ensures ICCP_ID == APNGChunks.FourCCToInt("ICCP") && XMP_ID == APNGChunks.FourCCToInt("XMP ")
    ensures EXIF_ID == APNGChunks.FourCCToInt("EXIF")
  {
    assert LowBytes("VP8X") == [0x56, 0x50, 0x38, 0x58];
    APNGChunks.FourCCToIntIsReadFourCC("VP8X");
    assert LowBytes("ANIM") == [0x41, 0x4E, 0x49, 0x4D];
    APNGChunks.FourCCToIntIsReadFourCC("ANIM");
    assert LowBytes("ANMF") == [0x41, 0x4E, 0x4D, 0x46];
    APNGChunks.FourCCToIntIsReadFourCC("ANMF");
    assert LowBytes("ALPH") == [0x41, 0x4C, 0x50, 0x48];
    APNGChunks.FourCCToIntIsReadFourCC("ALPH");
    assert LowBytes("VP8 ") == [0x56, 0x50, 0x38, 0x20];
    APNGChunks.FourCCToIntIsReadFourCC("VP8 ");
    assert LowBytes("VP8L") == [0x56, 0x50, 0x38, 0x4C];
    APNGChunks.FourCCToIntIsReadFourCC("VP8L");
    assert LowBytes("ICCP") == [0x49, 0x43, 0x43, 0x50];
    APNGChunks.FourCCToIntIsReadFourCC("ICCP");
    assert LowBytes("XMP ") == [0x58, 0x4D, 0x50, 0x20];
    APNGChunks.FourCCToIntIsReadFourCC("XMP ");
    assert LowBytes("EXIF") == [0x45, 0x58, 0x49, 0x46];
    APNGChunks.FourCCToIntIsReadFourCC("EXIF");
  }

  /** What each chunk class keeps of its payload; the image and metadata chunks keep nothing. */
  datatype Body =
    | Vp8x(flags: Byte, canvasWidth: int, canvasHeight: int)
    | Anim(backgroundColor: int, loopCount: int)
    | Anmf(frameX: int, frameY: int, frameWidth: int, frameHeight: int, frameDuration: int, flags: Byte, subChunks: seq<Chunk>)
    | Alph
    | Vp8
    | Vp8l
    | Iccp
    | Xmp
    | Exif
    | General
  {
    predicate Alpha()
      requires Vp8x?
    {
      HasBit(flags, FLAG_ALPHA)
    }

    predicate Animation()
      requires Vp8x?
    {
      HasBit(flags, FLAG_ANIMATION)
    }

    /** Set: do not blend, the frame replaces what it covers. */
    predicate BlendingMethod()
      requires Anmf?
    {
      HasBit(flags, FLAG_BLENDING_METHOD)
    }

    /** Set: the frame's rectangle is disposed to the background before the next frame. */
    predicate DisposalMethod()
      requires Anmf?
    {
      HasBit(flags, FLAG_DISPOSAL_METHOD)
    }

    /** The frame carries an ALPH chunk. */
    predicate HasAlph()
      requires Anmf?
    {
      exists i | 0 <= i < |subChunks| :: subChunks[i].body.Alph?
    }
  }

  /** A chunk: where it starts, its type, its declared (unpadded) payload size and its body. */
  datatype Chunk = Chunk(offset: int, fourCC: int, payloadSize: int, body: Body)

  /** `payloadSize + (payloadSize and 1)` in `Int` arithmetic: the payload rounded up to even. */
  function Padded(size: int): int
  {
    I32(size + size % 2)
  }

  /** A declared size from 0 up to `Int.MAX_VALUE - 1` pads to the next even number. */
  lemma PaddedSize(size: int)
    requires 0 <= size < 0x7fff_ffff
    ensures Padded(size) == size + size % 2
    ensures Padded(size) % 2 == 0 && size <= Padded(size) <= size + 1
  {
  }

  /** The end of a chunk in the stream: where the next one starts. */
  function ChunkEnd(c: Chunk): int
  {
    c.offset + CHUNK_HEADER_OFFSET + Padded(c.payloadSize)
  }

  /** The chunk class `parseChunk` picks for a FourCC: an unknown one is a general chunk. */
  predicate BodyMatches(fourCC: int, b: Body)
  {
    && (b.Vp8x? <==> fourCC == VP8X_ID)
    && (b.Anim? <==> fourCC == ANIM_ID)
    && (b.Anmf? <==> fourCC == ANMF_ID)
    && (b.Alph? <==> fourCC == ALPH_ID)
    && (b.Vp8? <==> fourCC == VP8_ID)
    && (b.Vp8l? <==> fourCC == VP8L_ID)
    && (b.Iccp? <==> fourCC == ICCP_ID)
    && (b.Xmp? <==> fourCC == XMP_ID)
    && (b.Exif? <==> fourCC == EXIF_ID)
  }

  /** The ranges of the 24-bit fields: positions and the duration from 0, 1-based sizes from 1, up to 2^24. */
  predicate FieldsInRange(b: Body)
  {
    && (b.Vp8x? ==> 1 <= b.canvasWidth <= TWO_24 && 1 <= b.canvasHeight <= TWO_24)
    && (b.Anmf? ==>
          && 0 <= b.frameX < TWO_24 && 0 <= b.frameY < TWO_24
          && 1 <= b.frameWidth <= TWO_24 && 1 <= b.frameHeight <= TWO_24
          && 0 <= b.frameDuration < TWO_24)
  }

  /**
   * What a parsed chunk guarantees: its body is the one its type names, its
   * padded payload is not negative and holds what its body parser read.
   */
  predicate WellFormed(c: Chunk)
  {
    && BodyMatches(c.fourCC, c.body)
    && FieldsInRange(c.body)
    && Padded(c.payloadSize) >= 0
    && (c.body.Vp8x? ==> Padded(c.payloadSize) >= VP8X_PAYLOAD_SIZE)
    && (c.body.Anim? ==> Padded(c.payloadSize) >= ANIM_PAYLOAD_SIZE)
    && (c.body.Anmf? ==> Padded(c.payloadSize) >= ANMF_HEADER_SIZE)
  }

  /**
   * The body parser of type `fourCC` for a payload of declared `size` at `q`:
   * VP8X keeps its flags and 1-based canvas size, ANIM its colour and loop count,
   * ANMF its header and the chunks that follow it while less than `size` bytes of
   * the payload have been read; every other type reads nothing.
   */
  function BodyAt(fourCC: int, size: int, data: seq<Byte>, q: int): (r: Result<Parsed<Body>>)
    requires 0 <= q <= |data| <= MAX_LIMIT
    ensures r.Ok? ==> q <= r.value.next <= |data| && BodyMatches(fourCC, r.value.value) && FieldsInRange(r.value.value)
    ensures r.Ok? && r.value.value.Vp8x? ==> r.value.next == q + VP8X_PAYLOAD_SIZE
    ensures r.Ok? && r.value.value.Anim? ==> r.value.next == q + ANIM_PAYLOAD_SIZE
    ensures r.Ok? && r.value.value.Anmf? ==> r.value.next >= q + ANMF_HEADER_SIZE
    decreases |data| - q, 0
  {
    if fourCC == VP8X_ID then
      if q + 1 > |data| then Err(Underflow)
      else if q + 4 > |data| then Err(BadPosition)
      else if q + VP8X_PAYLOAD_SIZE > |data| then Err(Underflow)
      else Ok(Parsed(Vp8x(data[q], LE24At(data, q + 4) + 1, LE24At(data, q + 7) + 1), q + VP8X_PAYLOAD_SIZE))
    else if fourCC == ANIM_ID then
      if q + ANIM_PAYLOAD_SIZE > |data| then Err(Underflow)
      else Ok(Parsed(Anim(UInt32At(data, q), LE16At(data, q + 4)), q + ANIM_PAYLOAD_SIZE))
    else if fourCC == ANMF_ID then
      if q + ANMF_HEADER_SIZE > |data| then Err(Underflow)
      else
        var subs :- SubChunksFrom(data, q + ANMF_HEADER_SIZE, q + size);
        Ok(Parsed(Anmf(LE24At(data, q), LE24At(data, q + 3), LE24At(data, q + 6) + 1, LE24At(data, q + 9) + 1,
                       LE24At(data, q + 12), data[q + 15], subs.value), subs.next))
    else if fourCC == ALPH_ID then Ok(Parsed(Alph, q))
    else if fourCC == VP8_ID then Ok(Parsed(Vp8, q))
    else if fourCC == VP8L_ID then Ok(Parsed(Vp8l, q))
    else if fourCC == ICCP_ID then Ok(Parsed(Iccp, q))
    else if fourCC == XMP_ID then Ok(Parsed(Xmp, q))
    else if fourCC == EXIF_ID then Ok(Parsed(Exif, q))
    else Ok(Parsed(General, q))
  }

  /**
   * The VP8X body: the flags byte, 3 reserved bytes skipped, then the canvas width
   * and height as 1-based 24-bit fields, so each lies in [1, 2^24].
   */
  lemma Vp8xBody(size: int, data: seq<Byte>, q: int)
    requires 0 <= q <= |data| <= MAX_LIMIT
    ensures BodyAt(VP8X_ID, size, data, q).Ok? <==> q + VP8X_PAYLOAD_SIZE <= |data|
    ensures BodyAt(VP8X_ID, size, data, q).Ok? ==>
      && BodyAt(VP8X_ID, size, data, q).value.value
           == Vp8x(data[q], LE24At(data, q + 4) + 1, LE24At(data, q + 7) + 1)
      && 1 <= LE24At(data, q + 4) + 1 <= TWO_24 && 1 <= LE24At(data, q + 7) + 1 <= TWO_24
  {
  }

  /**
   * `ANIMChunk.innerParse`: the background colour as a little-endian 32-bit field,
   * whose bytes stay in stream (blue, green, red, alpha) order, then the loop count
   * as a 16-bit field in [0, 65535].
   */
  lemma AnimBody(size: int, data: seq<Byte>, q: int)
    requires 0 <= q <= |data| <= MAX_LIMIT
    ensures BodyAt(ANIM_ID, size, data, q).Ok? <==> q + ANIM_PAYLOAD_SIZE <= |data|
    ensures BodyAt(ANIM_ID, size, data, q).Ok? ==>
      var b := BodyAt(ANIM_ID, size, data, q).value.value;
      && b == Anim(UInt32At(data, q), LE16At(data, q + 4))
      && LE4(b.backgroundColor) == data[q..q + 4]
      && 0 <= b.loopCount < TWO_16
  {
    if q + ANIM_PAYLOAD_SIZE <= |data| {
      LE4OfLE32(data[q], data[q + 1], data[q + 2], data[q + 3]);
    }
  }

  /**
   * The ANMF header: X, Y (24 bits), width, height (1-based 24 bits), duration
   * (24 bits) and the flags byte, before the frame's own chunks.
   */
  lemma AnmfHeader(size: int, data: seq<Byte>, q: int)
    requires 0 <= q <= |data| <= MAX_LIMIT
    requires BodyAt(ANMF_ID, size, data, q).Ok?
    ensures q + ANMF_HEADER_SIZE <= |data|
    ensures var b := BodyAt(ANMF_ID, size, data, q).value.value;
      && b.Anmf?
      && b.frameX == LE24At(data, q) && b.frameY == LE24At(data, q + 3)
      && b.frameWidth == LE24At(data, q + 6) + 1 && b.frameHeight == LE24At(data, q + 9) + 1
      && b.frameDuration == LE24At(data, q + 12) && b.flags == data[q + 15]
  {
  }

  /**
   * `parseChunk` at `p`: FourCC and size, the body, then a skip to the end of the
   * padded payload, where the next chunk starts.
   */
  function ChunkAt(data: seq<Byte>, p: int): (r: Result<Parsed<Chunk>>)
    requires 0 <= p <= |data| <= MAX_LIMIT
    ensures r.Ok? ==>
      && r.value.value.offset == p
      && p + CHUNK_HEADER_OFFSET <= |data|
      && r.value.value.fourCC == UInt32At(data, p)
      && r.value.value.payloadSize == UInt32At(data, p + 4)
      && WellFormed(r.value.value)
      && r.value.next == ChunkEnd(r.value.value) <= |data|
    decreases |data| - p, 2
  {
    if p + CHUNK_HEADER_OFFSET > |data| then Err(Underflow)
    else ChunkRestAt(data, p, UInt32At(data, p), UInt32At(data, p + 4))
  }

  /** The rest of `parseChunk` once type and size of the chunk at `p` are known. */
  function ChunkRestAt(data: seq<Byte>, p: int, fourCC: int, size: int): (r: Result<Parsed<Chunk>>)
    requires 0 <= p && p + CHUNK_HEADER_OFFSET <= |data| <= MAX_LIMIT
    ensures r.Ok? ==>
      && r.value.value == Chunk(p, fourCC, size, r.value.value.body)
      && WellFormed(r.value.value)
      && r.value.next == ChunkEnd(r.value.value) <= |data|
    decreases |data| - p, 1
  {
    ChunkAfterBody(data, p, fourCC, size, BodyAt(fourCC, size, data, p + CHUNK_HEADER_OFFSET))
  }

  /** What follows the body parser: the check against the padded size and the skip to the chunk's end. */
  function ChunkAfterBody(data: seq<Byte>, p: int, fourCC: int, size: int, parsed: Result<Parsed<Body>>): (r: Result<Parsed<Chunk>>)
    requires 0 <= p && p + CHUNK_HEADER_OFFSET <= |data| <= MAX_LIMIT
    requires parsed.Ok? ==> p + CHUNK_HEADER_OFFSET <= parsed.value.next <= |data|
    ensures r.Ok? ==> parsed.Ok? && r.value.value == Chunk(p, fourCC, size, parsed.value.value)
    ensures r.Ok? ==> r.value.next == p + CHUNK_HEADER_OFFSET + Padded(size) <= |data|
  {
    var body :- parsed;
    var consumed := body.next - (p + CHUNK_HEADER_OFFSET);
    var padded := Padded(size);
    if consumed > padded then Err(OutOfChunk)
    else
      SkipForward(data, body.next, padded - consumed);
      var end :- if consumed < padded then SkipAt(data, body.next, padded - consumed) else Ok(body.next);
      Ok(Parsed(Chunk(p, fourCC, size, body.value), end))
  }

  /** The ANMF loop from `p`: chunk after chunk until the position reaches `end`. */
  function SubChunksFrom(data: seq<Byte>, p: int, end: int): (r: Result<Parsed<seq<Chunk>>>)
    requires 0 <= p <= |data| <= MAX_LIMIT
    ensures r.Ok? ==> p <= r.value.next <= |data|
    ensures r.Ok? && p < end ==> end <= r.value.next
    ensures r.Ok? && p >= end ==> r.value == Parsed([], p)
    decreases |data| - p, 3
  {
    if p >= end then Ok(Parsed([], p))
    else
      var c :- ChunkAt(data, p);
      var rest :- SubChunksFrom(data, c.next, end);
      Ok(Parsed([c.value] + rest.value, rest.next))
  }

  /** The `while (available() > 0)` loop of `parse` from `p`: every chunk up to the end, or the first error. */
  function ChunksFrom(data: seq<Byte>, p: int): Result<seq<Chunk>>
    requires 0 <= p <= |data| <= MAX_LIMIT
    decreases |data| - p
  {
    if |data| - p <= 0 then Ok([])
    else
      var c :- ChunkAt(data, p);
      var rest :- ChunksFrom(data, c.next);
      Ok([c.value] + rest)
  }

  /** The file header at `p`: "RIFF", a skipped size, "WEBP"; the last is only read when the first matched. */
  function HeaderAt(data: seq<Byte>, p: int): Result<bool>
    requires 0 <= p <= |data| <= MAX_LIMIT
  {
    if p + 4 > |data| then Err(Underflow)
    else if !BytesSpell(data[p..p + 4], RIFF) then Ok(false)
    else
      var skipped :- SkipAt(data, p + 4, 4);
      if skipped + 4 > |data| then Err(Underflow)
      else Ok(BytesSpell(data[skipped..skipped + 4], WEBP))
  }

  /** `parse` from `p`: a bad header is a `FormatException`. */
  function ParseAt(data: seq<Byte>, p: int): Result<seq<Chunk>>
    requires 0 <= p <= |data| <= MAX_LIMIT
  {
    var valid :- HeaderAt(data, p);
    if !valid then Err(FormatError)
    else
      SkipForward(data, p + 4, 4);
      ChunksFrom(data, p + 12)
  }

  /** The chunk scan of `isAWebP`: the first VP8X decides; an `IOException` reads as "not animated". */
  function ScanForVp8x(data: seq<Byte>, p: int): Result<bool>
    requires 0 <= p <= |data| <= MAX_LIMIT
    decreases |data| - p
  {
    if |data| - p <= 0 then Ok(false)
    else match ChunkAt(data, p)
      case Err(e) => if e.IsIOException() then Ok(false) else Err(e)
      case Ok(c) => if c.value.body.Vp8x? then Ok(c.value.body.Animation()) else ScanForVp8x(data, c.next)
  }

  /** `isAWebP` from `p`. */
  function IsAWebPAt(data: seq<Byte>, p: int): Result<bool>
    requires 0 <= p <= |data| <= MAX_LIMIT
  {
    match HeaderAt(data, p)
    case Err(e) => if e.IsIOException() then Ok(false) else Err(e)
    case Ok(valid) =>
      if !valid then Ok(false)
      else
        SkipForward(data, p + 4, 4);
        ScanForVp8x(data, p + 12)
  }

  /** `Prepend` for the ANMF loop, which also gives where it stopped. */
  function PrependSub(chunks: seq<Chunk>, rest: Result<Parsed<seq<Chunk>>>): Result<Parsed<seq<Chunk>>>
  {
    match rest
    case Ok(cs) => Ok(Parsed(chunks + cs.value, cs.next))
    case Err(e) => Err(e)
  }

  /** One step of the ANMF loop. */
  lemma PrependSubStep(chunks: seq<Chunk>, data: seq<Byte>, p: int, end: int)
    requires 0 <= p <= |data| <= MAX_LIMIT && p < end
    ensures ChunkAt(data, p).Err? ==> PrependSub(chunks, SubChunksFrom(data, p, end)) == Err(ChunkAt(data, p).error)
    ensures ChunkAt(data, p).Ok? ==>
      PrependSub(chunks, SubChunksFrom(data, p, end))
        == PrependSub(chunks + [ChunkAt(data, p).value.value], SubChunksFrom(data, ChunkAt(data, p).value.next, end))
  {
    match ChunkAt(data, p)
    case Err(e) =>
    case Ok(c) =>
      match SubChunksFrom(data, c.next, end)
      case Err(e) =>
      case Ok(rest) => assert chunks + ([c.value] + rest.value) == chunks + [c.value] + rest.value;
  }

  // ---------------------------------------------------------------------
  // Properties of the walk.

  /** The chunks tile the stream from `p` to `end`, each one well formed. */
  predicate Tiles(cs: seq<Chunk>, p: int, end: int)
  {
    && (|cs| == 0 ==> p == end)
    && (|cs| > 0 ==> cs[0].offset == p && ChunkEnd(cs[|cs| - 1]) == end)
    && (forall i :: 0 <= i < |cs| - 1 ==> cs[i + 1].offset == ChunkEnd(cs[i]))
    && (forall i :: 0 <= i < |cs| ==> WellFormed(cs[i]))
  }

  /** Putting a chunk in front of a tiling that starts where it ends. */
  lemma TilesCons(c: Chunk, rest: seq<Chunk>, end: int)
    requires WellFormed(c) && Tiles(rest, ChunkEnd(c), end)
    ensures Tiles([c] + rest, c.offset, end)
  {
    var cs := [c] + rest;
    assert forall i :: 0 < i < |cs| ==> cs[i] == rest[i - 1];
  }

  /** A successful walk from `p` is a sequence of adjacent chunks ending exactly at the limit. */
  lemma {:induction false} ChunksTile(data: seq<Byte>, p: int)
    requires 0 <= p <= |data| <= MAX_LIMIT
    ensures ChunksFrom(data, p).Ok? ==> Tiles(ChunksFrom(data, p).value, p, |data|)
    decreases |data| - p
  {
    if |data| - p > 0 && ChunkAt(data, p).Ok? {
      var c := ChunkAt(data, p).value;
      ChunksTile(data, c.next);
      if ChunksFrom(data, c.next).Ok? {
        TilesCons(c.value, ChunksFrom(data, c.next).value, |data|);
      }
    }
  }

  /** The frame's own chunks tile its payload from just after the header to where the loop stopped. */
  lemma {:induction false} SubChunksTile(data: seq<Byte>, p: int, end: int)
    requires 0 <= p <= |data| <= MAX_LIMIT
    ensures SubChunksFrom(data, p, end).Ok? ==>
      Tiles(SubChunksFrom(data, p, end).value.value, p, SubChunksFrom(data, p, end).value.next)
    decreases |data| - p
  {
    if p < end && ChunkAt(data, p).Ok? {
      var c := ChunkAt(data, p).value;
      SubChunksTile(data, c.next, end);
      if SubChunksFrom(data, c.next, end).Ok? {
        var rest := SubChunksFrom(data, c.next, end).value;
        TilesCons(c.value, rest.value, rest.next);
      }
    }
  }

  /**
   * A parsed ANMF chunk: its frame's chunks start right after the 16-byte header
   * and tile the payload up to a point `stop` that is at least the declared size
   * and at most the padded one.
   */
  lemma AnmfLayout(data: seq<Byte>, p: int) returns (stop: int)
    requires 0 <= p <= |data| <= MAX_LIMIT
    requires ChunkAt(data, p).Ok? && ChunkAt(data, p).value.value.body.Anmf?
    ensures var c := ChunkAt(data, p).value.value;
      && p + CHUNK_HEADER_OFFSET + ANMF_HEADER_SIZE <= stop <= ChunkEnd(c)
      && p + CHUNK_HEADER_OFFSET + c.payloadSize <= stop
      && Tiles(c.body.subChunks, p + CHUNK_HEADER_OFFSET + ANMF_HEADER_SIZE, stop)
  {
    var q := p + CHUNK_HEADER_OFFSET;
    var size := UInt32At(data, p + 4);
    var body := BodyAt(ANMF_ID, size, data, q);
    assert body.Ok? && body.value.next <= ChunkEnd(ChunkAt(data, p).value.value);
    AnmfBodyLayout(size, data, q);
    stop := body.value.next;
  }

  /** The ANMF body parser: its chunks tile the payload from the end of the header to where it stopped. */
  lemma AnmfBodyLayout(size: int, data: seq<Byte>, q: int)
    requires 0 <= q <= |data| <= MAX_LIMIT
    requires BodyAt(ANMF_ID, size, data, q).Ok?
    ensures var b := BodyAt(ANMF_ID, size, data, q).value;
      && b.value.Anmf?
      && q + size <= b.next
      && Tiles(b.value.subChunks, q + ANMF_HEADER_SIZE, b.next)
  {
    var subs := SubChunksFrom(data, q + ANMF_HEADER_SIZE, q + size);
    SubChunksTile(data, q + ANMF_HEADER_SIZE, q + size);
  }

  /** The two FourCCs the header check matches are the bytes of "RIFF" and "WEBP". */
  lemma SignatureGate(data: seq<Byte>, p: int)
    requires 0 <= p && p + 12 <= |data| <= MAX_LIMIT
    ensures HeaderAt(data, p) == Ok(data[p..p + 4] == RIFF_BYTES && data[p + 8..p + 12] == WEBP_BYTES)
    ensures !(data[p..p + 4] == RIFF_BYTES && data[p + 8..p + 12] == WEBP_BYTES) ==>
      ParseAt(data, p) == Err(FormatError) && IsAWebPAt(data, p) == Ok(false)
    ensures data[p..p + 4] == RIFF_BYTES && data[p + 8..p + 12] == WEBP_BYTES ==> ParseAt(data, p) == ChunksFrom(data, p + 12)
  {
    SkipForward(data, p + 4, 4);
    assert forall i :: 0 <= i < 4 ==> RIFF[i] as int == RIFF_BYTES[i];
    assert forall i :: 0 <= i < 4 ==> WEBP[i] as int == WEBP_BYTES[i];
    assert BytesSpell(data[p..p + 4], RIFF) <==> data[p..p + 4] == RIFF_BYTES;
    assert BytesSpell(data[p + 8..p + 12], WEBP) <==> data[p + 8..p + 12] == WEBP_BYTES;
  }

  /**
   * A chunk of a type the parser does not know is kept as a general chunk and its
   * padded payload skipped: it parses exactly when the padded size is not negative
   * and the chunk fits in what remains.
   */
  lemma UnknownChunkSkipped(data: seq<Byte>, p: int)
    requires 0 <= p && p + CHUNK_HEADER_OFFSET <= |data| <= MAX_LIMIT
    requires UInt32At(data, p) !in {VP8X_ID, ANIM_ID, ANMF_ID, ALPH_ID, VP8_ID, VP8L_ID, ICCP_ID, XMP_ID, EXIF_ID}
    ensures var padded := Padded(UInt32At(data, p + 4));
      ChunkAt(data, p).Ok? <==> 0 <= padded && p + CHUNK_HEADER_OFFSET + padded <= |data|
    ensures ChunkAt(data, p).Ok? ==> ChunkAt(data, p).value.value.body == General
    ensures Padded(UInt32At(data, p + 4)) < 0 ==> ChunkAt(data, p) == Err(OutOfChunk)
  {
    var fourCC, size := UInt32At(data, p), UInt32At(data, p + 4);
    var padded := Padded(size);
    assert ChunkAt(data, p) == ChunkRestAt(data, p, fourCC, size);
    assert BodyAt(fourCC, size, data, p + CHUNK_HEADER_OFFSET) == Ok(Parsed(General, p + CHUNK_HEADER_OFFSET));
    if padded > 0 {
      SkipForward(data, p + CHUNK_HEADER_OFFSET, padded);
    }
  }

  /** The animation flag of the first VP8X of `cs`, false when there is none. */
  function FirstVp8xAnimated(cs: seq<Chunk>): bool
  {
    if |cs| == 0 then false
    else if cs[0].body.Vp8x? then cs[0].body.Animation()
    else FirstVp8xAnimated(cs[1..])
  }

  /** `isAWebP` on a stream that parses: the animation flag of its first VP8X chunk. */
  lemma IsAWebPFindsVp8x(data: seq<Byte>, p: int)
    requires 0 <= p <= |data| <= MAX_LIMIT
    requires ParseAt(data, p).Ok?
    ensures IsAWebPAt(data, p) == Ok(FirstVp8xAnimated(ParseAt(data, p).value))
  {
    SkipForward(data, p + 4, 4);
    ScanFindsVp8x(data, p + 12);
  }

  lemma {:induction false} ScanFindsVp8x(data: seq<Byte>, p: int)
    requires 0 <= p <= |data| <= MAX_LIMIT
    requires ChunksFrom(data, p).Ok?
    ensures ScanForVp8x(data, p) == Ok(FirstVp8xAnimated(ChunksFrom(data, p).value))
    decreases |data| - p
  {
    if |data| - p > 0 {
      var c := ChunkAt(data, p).value;
      var rest := ChunksFrom(data, c.next).value;
      assert ChunksFrom(data, p).value == [c.value] + rest;
      assert ([c.value] + rest)[1..] == rest;
      if !c.value.body.Vp8x? {
        ScanFindsVp8x(data, c.next);
      }
    }
  }

  // ---------------------------------------------------------------------
  // The walker over the reader.

  /** The header check `parse` and `isAWebP` share. */
  method ReadHeader(r: ByteBufferReader) returns (res: Result<bool>)
    requires r.Valid()
    modifies r
    ensures r.Valid()
    ensures res == HeaderAt(r.data, old(r.pos))
    ensures res == Ok(true) ==> r.pos == old(r.pos) + 12
  {
    var riff :- MatchFourCC(r, RIFF);
    if !riff {
      return Ok(false);
    }
    SkipForward(r.data, r.pos, 4);
    var skipped :- r.Skip(4);
    res := MatchFourCC(r, WEBP);
  }

  /** The body parser of each chunk class, dispatched on the FourCC. */
  method ParseBody(r: ByteBufferReader, fourCC: int, size: int) returns (res: Result<Body>)
    requires r.Valid()
    modifies r
    ensures r.Valid()
    ensures var spec := BodyAt(fourCC, size, r.data, old(r.pos));
      && (res.Ok? <==> spec.Ok?)
      && (res.Ok? ==> res.value == spec.value.value && r.pos == spec.value.next)
      && (res.Err? ==> res.error == spec.error)
    decreases |r.data| - r.pos, 1
  {
    if fourCC == VP8X_ID {
      res := ParseVp8xBody(r, size);
    } else if fourCC == ANIM_ID {
      res := ParseAnimBody(r, size);
    } else if fourCC == ANMF_ID {
      res := ParseAnmfBody(r, size);
    } else if fourCC == ALPH_ID {
      res := Ok(Alph);
    } else if fourCC == VP8_ID {
      res := Ok(Vp8);
    } else if fourCC == VP8L_ID {
      res := Ok(Vp8l);
    } else if fourCC == ICCP_ID {
      res := Ok(Iccp);
    } else if fourCC == XMP_ID {
      res := Ok(Xmp);
    } else if fourCC == EXIF_ID {
      res := Ok(Exif);
    } else {
      res := Ok(General);
    }
  }

  /** `VP8XChunk`'s body: the flags byte, 3 reserved bytes, then width and height. */
  method ParseVp8xBody(r: ByteBufferReader, size: int) returns (res: Result<Body>)
    requires r.Valid()
    modifies r
    ensures r.Valid()
    ensures var spec := BodyAt(VP8X_ID, size, r.data, old(r.pos));
      && (res.Ok? <==> spec.Ok?)
      && (res.Ok? ==> res.value == spec.value.value && r.pos == spec.value.next)
      && (res.Err? ==> res.error == spec.error)
  {
    var flags :- r.Peek();
    SkipForward(r.data, r.pos, 3);
    var skipped :- r.Skip(3);
    var canvasWidth :- Read1Based(r);
    var canvasHeight :- Read1Based(r);
    res := Ok(Vp8x(flags, canvasWidth, canvasHeight));
  }

  /** `ANIMChunk`'s body: the background colour, then the loop count. */
  method ParseAnimBody(r: ByteBufferReader, size: int) returns (res: Result<Body>)
    requires r.Valid()
    modifies r
    ensures r.Valid()
    ensures var spec := BodyAt(ANIM_ID, size, r.data, old(r.pos));
      && (res.Ok? <==> spec.Ok?)
      && (res.Ok? ==> res.value == spec.value.value && r.pos == spec.value.next)
      && (res.Err? ==> res.error == spec.error)
  {
    var backgroundColor :- ReadUInt32(r);
    var loopCount :- ReadUInt16(r);
    res := Ok(Anim(backgroundColor, loopCount));
  }

  /** `ANMFChunk`'s body: the frame fields, then the sub-chunks up to the end of the payload. */
  method ParseAnmfBody(r: ByteBufferReader, size: int) returns (res: Result<Body>)
    requires r.Valid()
    modifies r
    ensures r.Valid()
    ensures var spec := BodyAt(ANMF_ID, size, r.data, old(r.pos));
      && (res.Ok? <==> spec.Ok?)
      && (res.Ok? ==> res.value == spec.value.value && r.pos == spec.value.next)
      && (res.Err? ==> res.error == spec.error)
    decreases |r.data| - r.pos, 0
  {
    var start := r.Position();
    var head :- ReadAnmfHeader(r);
    var subChunks :- ParseSubChunks(r, start + size);
    res := Ok(head.(subChunks := subChunks));
  }

  /** The fixed 16 bytes of an ANMF body, as a frame with no sub-chunks yet. */
  method ReadAnmfHeader(r: ByteBufferReader) returns (res: Result<Body>)
    requires r.Valid()
    modifies r
    ensures r.Valid()
    ensures res.Ok? <==> old(r.pos) + ANMF_HEADER_SIZE <= |r.data|
    ensures res.Err? ==> res.error == Underflow
    ensures res.Ok? ==> r.pos == old(r.pos) + ANMF_HEADER_SIZE
    ensures res.Ok? ==>
      res.value == Anmf(LE24At(r.data, old(r.pos)), LE24At(r.data, old(r.pos) + 3), LE24At(r.data, old(r.pos) + 6) + 1,
           LE24At(r.data, old(r.pos) + 9) + 1, LE24At(r.data, old(r.pos) + 12), r.data[old(r.pos) + 15], [])
  {
    var frameX :- ReadUInt24(r);
    var frameY :- ReadUInt24(r);
    var frameWidth :- Read1Based(r);
    var frameHeight :- Read1Based(r);
    var frameDuration :- ReadUInt24(r);
    var flags :- r.Peek();
    res := Ok(Anmf(frameX, frameY, frameWidth, frameHeight, frameDuration, flags, []));
  }

  /** The ANMF loop: chunks are parsed while the position is short of `end`. */
  method ParseSubChunks(r: ByteBufferReader, end: int) returns (res: Result<seq<Chunk>>)
    requires r.Valid()
    modifies r
    ensures r.Valid()
    ensures var spec := SubChunksFrom(r.data, old(r.pos), end);
      && (res.Ok? <==> spec.Ok?)
      && (res.Ok? ==> res.value == spec.value.value && r.pos == spec.value.next)
      && (res.Err? ==> res.error == spec.error)
    decreases |r.data| - r.pos, 4
  {
    ghost var start := r.pos;
    var chunks: seq<Chunk> := [];
    assert PrependSub(chunks, SubChunksFrom(r.data, r.pos, end)) == SubChunksFrom(r.data, start, end) by {
      match SubChunksFrom(r.data, r.pos, end)
      case Ok(cs) => assert chunks + cs.value == cs.value;
      case Err(e) =>
    }
    var pos := r.Position();
    while pos < end
      invariant r.Valid() && pos == r.pos && start <= r.pos
      invariant PrependSub(chunks, SubChunksFrom(r.data, r.pos, end)) == SubChunksFrom(r.data, start, end)
      decreases |r.data| - r.pos
    {
      PrependSubStep(chunks, r.data, r.pos, end);
      var c :- ParseChunk(r);
      chunks := chunks + [c];
      pos := r.Position();
    }
    assert chunks + [] == chunks;
    res := Ok(chunks);
  }

  method ParseChunk(r: ByteBufferReader) returns (res: Result<Chunk>)
    requires r.Valid()
    modifies r
    ensures r.Valid()
    ensures var spec := ChunkAt(r.data, old(r.pos));
      && (res.Ok? <==> spec.Ok?)
      && (res.Ok? ==> res.value == spec.value.value && r.pos == spec.value.next)
      && (res.Err? ==> res.error == spec.error)
    decreases |r.data| - r.pos, 3
  {
    var offset := r.Position();
    var fourCC :- ReadFourCC(r);
    var size :- ReadUInt32(r);
    res := ParseChunkRest(r, offset, fourCC, size);
  }

  /** Body and padding skip of the chunk whose header ends at the position. */
  method ParseChunkRest(r: ByteBufferReader, offset: int, fourCC: int, size: int) returns (res: Result<Chunk>)
    requires r.Valid() && 0 <= offset && offset + CHUNK_HEADER_OFFSET == r.pos
    modifies r
    ensures r.Valid()
    ensures var spec := ChunkRestAt(r.data, offset, fourCC, size);
      && (res.Ok? <==> spec.Ok?)
      && (res.Ok? ==> res.value == spec.value.value && r.pos == spec.value.next)
      && (res.Err? ==> res.error == spec.error)
    decreases |r.data| - r.pos, 2
  {
    ghost var spec := BodyAt(fourCC, size, r.data, r.pos);
    assert ChunkRestAt(r.data, offset, fourCC, size) == ChunkAfterBody(r.data, offset, fourCC, size, spec);
    var available := r.Available();
    var body :- ParseBody(r, fourCC, size);
    var left := r.Available();
    var consumed := available - left;
    var padded := Padded(size);
    assert consumed == spec.value.next - (offset + CHUNK_HEADER_OFFSET);
    if consumed > padded {
      return Err(OutOfChunk);
    }
    SkipForward(r.data, r.pos, padded - consumed);
    if consumed < padded {
      var skipped :- r.Skip(padded - consumed);
    }
    res := Ok(Chunk(offset, fourCC, size, body));
  }

  method Parse(r: ByteBufferReader) returns (res: Result<seq<Chunk>>)
    requires r.Valid()
    modifies r
    ensures r.Valid()
    ensures res == ParseAt(r.data, old(r.pos))
  {
    var valid :- ReadHeader(r);
    if !valid {
      return Err(FormatError);
    }
    ghost var start := r.pos;
    var chunks: seq<Chunk> := [];
    assert Prepend(chunks, ChunksFrom(r.data, r.pos)) == ChunksFrom(r.data, start) by {
      match ChunksFrom(r.data, r.pos)
      case Ok(cs) => assert chunks + cs == cs;
      case Err(e) =>
    }
    var available := r.Available();
    while available > 0
      invariant r.Valid() && available == |r.data| - r.pos
      invariant Prepend(chunks, ChunksFrom(r.data, r.pos)) == ChunksFrom(r.data, start)
      decreases available
    {
      var c :- ParseChunk(r);
      PrependStep(chunks, c, ChunksFrom(r.data, r.pos));
      chunks := chunks + [c];
      available := r.Available();
    }
    assert chunks + [] == chunks;
    res := Ok(chunks);
  }

  method IsAWebP(r: ByteBufferReader) returns (res: Result<bool>)
    requires r.Valid()
    modifies r
    ensures r.Valid()
    ensures res == IsAWebPAt(r.data, old(r.pos))
  {
    var valid := ReadHeader(r);
    if valid.Err? {
      return if valid.error.IsIOException() then Ok(false) else Err(valid.error);
    }
    if !valid.value {
      return Ok(false);
    }
    ghost var start := r.pos;
    var available := r.Available();
    while available > 0
      invariant r.Valid() && available == |r.data| - r.pos
      invariant ScanForVp8x(r.data, r.pos) == ScanForVp8x(r.data, start)
      decreases available
    {
      var c := ParseChunk(r);
      if c.Err? {
        return if c.error.IsIOException() then Ok(false) else Err(c.error);
      }
      if c.value.body.Vp8x? {
        return Ok(c.value.body.Animation());
      }
      available := r.Available();
    }
    res := Ok(false);
  }
}
