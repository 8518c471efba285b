/**
 * The PNG/APNG chunk walker: the 8-byte signature (section 5.2 of the PNG
 * specification), then `length | type | body | crc` chunks (section 5.3) until
 * nothing remains. Each body parser reads its type's fields; a body that read more
 * than the declared length is an error, one that read less is skipped to its end.
 */
module APNGParsers {
  import opened Bytes
  import opened Results
  import opened ByteBufferReaders
  import opened APNGReaders
  import opened APNGChunks
  import opened FCTLChunks

  /** The two FourCCs `isValid` matches, high and low half of the signature. */
  const PNG_MAGIC_HIGH: string := "\U{89}PNG"
  const PNG_MAGIC_LOW: string := "\r\n\U{1a}\n"

  /** Section 5.2 of the PNG specification. */
  const PNG_SIGNATURE: seq<Byte> := [0x89, 0x50, 0x4E, 0x47, 0x0D, 0x0A, 0x1A, 0x0A]

  /** Bit depth, colour type, compression, filter and interlace method. */
  const IHDR_DATA_SIZE: int := 5

  /** Length field, type and CRC around every body. */
  const CHUNK_OVERHEAD: int := 12

  /** The end of a chunk in the stream: where the next one starts. */
  function ChunkEnd(c: Chunk): int
  {
    c.offset + CHUNK_OVERHEAD + c.length
  }

  /**
   * What the frame encoder relies on for a parsed chunk: its body is the one its
   * type names, an fdAT body holds its 4-byte sequence number, an IHDR body its
   * 13 bytes.
   */
  predicate WellFormed(c: Chunk)
  {
    && c.length >= 0
    && (c.body.Actl? <==> c.fourCC == ACTL_ID)
    && (c.body.Fctl? <==> c.fourCC == FCTL_ID)
    && (c.body.Fdat? <==> c.fourCC == FDAT_ID)
    && (c.body.Idat? <==> c.fourCC == IDAT_ID)
    && (c.body.Ihdr? <==> c.fourCC == IHDR_ID)
    && (c.body.Fdat? ==> c.length >= 4)
    && (c.body.Ihdr? ==> c.length >= 8 + IHDR_DATA_SIZE && |c.body.data| == IHDR_DATA_SIZE)
  }

  /**
   * The body parser for type `fourCC` at `p`: acTL keeps two `Int`s, fcTL its
   * nine fields, fdAT its sequence number, IHDR width, height and 5 bytes; IDAT,
   * IEND and every other type read nothing (an unknown type is a general chunk).
   */
  function BodyAt(fourCC: int, data: seq<Byte>, p: int): (r: Result<Parsed<ChunkBody>>)
    requires 0 <= p <= |data|
    ensures r.Ok? ==> p <= r.value.next <= |data|
    ensures r.Err? ==> r.error == Underflow
    ensures r.Ok? ==> (r.value.value.Actl? <==> fourCC == ACTL_ID)
    ensures r.Ok? ==> (r.value.value.Fctl? <==> fourCC == FCTL_ID)
    ensures r.Ok? ==> (r.value.value.Fdat? <==> fourCC == FDAT_ID)
    ensures r.Ok? ==> (r.value.value.Idat? <==> fourCC == IDAT_ID)
    ensures r.Ok? ==> (r.value.value.Ihdr? <==> fourCC == IHDR_ID)
    ensures r.Ok? && r.value.value.Ihdr? ==> |r.value.value.data| == IHDR_DATA_SIZE
    ensures r.Ok? && r.value.value.Fdat? ==> r.value.next == p + 4
  {
    if fourCC == ACTL_ID then
      if p + 8 <= |data| then Ok(Parsed(Actl(IntAt(data, p), IntAt(data, p + 4)), p + 8)) else Err(Underflow)
    else if fourCC == FCTL_ID then
      var f :- FctlAt(data, p);
      Ok(Parsed(Fctl(f.value), f.next))
    else if fourCC == FDAT_ID then
      if p + 4 <= |data| then Ok(Parsed(Fdat(IntAt(data, p)), p + 4)) else Err(Underflow)
    else if fourCC == IDAT_ID then
      Ok(Parsed(Idat, p))
    else if fourCC == IEND_ID then
      Ok(Parsed(Iend, p))
    else if fourCC == IHDR_ID then
      if p + 8 + IHDR_DATA_SIZE <= |data| then
        Ok(Parsed(Ihdr(IntAt(data, p), IntAt(data, p + 4), data[p + 8..p + 8 + IHDR_DATA_SIZE]), p + 8 + IHDR_DATA_SIZE))
      else Err(Underflow)
    else
      Ok(Parsed(General, p))
  }

  /**
   * `parseChunk` at `p`: the chunk starts at `p` with its BE32 length, then its
   * FourCC, its body and its BE32 CRC, and the next chunk starts right after.
   */
  function ChunkAt(data: seq<Byte>, p: int): (r: Result<Parsed<Chunk>>)
    requires 0 <= p <= |data| <= MAX_LIMIT
    ensures r.Ok? ==>
      && r.value.value.offset == p
      && WellFormed(r.value.value)
      && r.value.next == ChunkEnd(r.value.value) <= |data|
      && r.value.value.length == IntAt(data, p)
      && r.value.value.fourCC == FourCCAt(data, p + 4)
      && r.value.value.crc == IntAt(data, r.value.next - 4)
  {
    if p + 8 > |data| then Err(Underflow)
    else ChunkRestAt(data, p, IntAt(data, p), FourCCAt(data, p + 4))
  }

  /** The rest of `parseChunk` once length and type of the chunk at `p` are known. */
  function ChunkRestAt(data: seq<Byte>, p: int, size: int, fourCC: int): (r: Result<Parsed<Chunk>>)
    requires 0 <= p && p + 8 <= |data| <= MAX_LIMIT && IsInt32(size)
    ensures r.Ok? ==>
      && r.value.value == Chunk(p, size, fourCC, r.value.value.crc, r.value.value.body)
      && WellFormed(r.value.value)
      && r.value.next == ChunkEnd(r.value.value) <= |data|
      && r.value.value.crc == IntAt(data, r.value.next - 4)
  {
    var body :- BodyAt(fourCC, data, p + 8);
    var consumed := body.next - (p + 8);
    if consumed > size then Err(OutOfChunk)
    else
      SkipForward(data, body.next, size - consumed);
      var end :- if consumed < size then SkipAt(data, body.next, size - consumed) else Ok(body.next);
      if end + 4 > |data| then Err(Underflow)
      else Ok(Parsed(Chunk(p, size, fourCC, IntAt(data, end), body.value), end + 4))
  }

  /** The `while (available() > 0)` loop from `p`: every chunk up to the end, or the first error. */
  function ChunksFrom(data: seq<Byte>, p: int): Result<seq<Chunk>>
    requires 0 <= p <= |data| <= MAX_LIMIT
    decreases |data| - p
  {
    if |data| - p <= 0 then Ok([])
    else
      var c :- ChunkAt(data, p);
      var rest :- ChunksFrom(data, c.next);
      Ok([c.value] + rest)
  }

  /** `isValid` at `p`: the second half is only read when the first half matched. */
  function IsValidAt(data: seq<Byte>, p: int): Result<bool>
    requires 0 <= p <= |data|
  {
    if p + 4 > |data| then Err(Underflow)
    else if !BytesSpell(data[p..p + 4], PNG_MAGIC_HIGH) then Ok(false)
    else if p + 8 > |data| then Err(Underflow)
    else Ok(BytesSpell(data[p + 4..p + 8], PNG_MAGIC_LOW))
  }

  /** `parse` from `p`: a bad signature is a `FormatException`. */
  function ParseAt(data: seq<Byte>, p: int): Result<seq<Chunk>>
    requires 0 <= p <= |data| <= MAX_LIMIT
  {
    var valid :- IsValidAt(data, p);
    if !valid then Err(FormatError) else ChunksFrom(data, p + 8)
  }

  /** The chunk scan of `isAPNG`: an `IOException` reads as "not animated", the buffer's own errors escape. */
  function ScanForActl(data: seq<Byte>, p: int): Result<bool>
    requires 0 <= p <= |data| <= MAX_LIMIT
    decreases |data| - p
  {
    if |data| - p <= 0 then Ok(false)
    else match ChunkAt(data, p)
      case Err(e) => if e.IsIOException() then Ok(false) else Err(e)
      case Ok(c) => if c.value.body.Actl? then Ok(true) else ScanForActl(data, c.next)
  }

  /** `isAPNG` from `p`. */
  function IsAPNGAt(data: seq<Byte>, p: int): Result<bool>
    requires 0 <= p <= |data| <= MAX_LIMIT
  {
    match IsValidAt(data, p)
    case Err(e) => if e.IsIOException() then Ok(false) else Err(e)
    case Ok(valid) => if !valid then Ok(false) else ScanForActl(data, p + 8)
  }

  // ---------------------------------------------------------------------
  // Properties of the walk.

  /** The chunks tile the stream from `p` to `end`, each one well formed. */
  predicate Tiles(cs: seq<Chunk>, p: int, end: int)
  {
    && (|cs| == 0 ==> p == end)
    && (|cs| > 0 ==> cs[0].offset == p && ChunkEnd(cs[|cs| - 1]) == end)
    && (forall i :: 0 <= i < |cs| - 1 ==> cs[i + 1].offset == ChunkEnd(cs[i]))
    && (forall i :: 0 <= i < |cs| ==> WellFormed(cs[i]))
  }

  /** A successful walk from `p` is a sequence of adjacent chunks ending exactly at the limit. */
  lemma {:induction false} ChunksTile(data: seq<Byte>, p: int)
    requires 0 <= p <= |data| <= MAX_LIMIT
    ensures ChunksFrom(data, p).Ok? ==> Tiles(ChunksFrom(data, p).value, p, |data|)
    decreases |data| - p
  {
    if |data| - p > 0 && ChunkAt(data, p).Ok? {
      var c := ChunkAt(data, p).value;
      ChunksTile(data, c.next);
      if ChunksFrom(data, c.next).Ok? {
        var rest := ChunksFrom(data, c.next).value;
        var cs := [c.value] + rest;
        assert forall i :: 0 < i < |cs| ==> cs[i] == rest[i - 1];
        assert |rest| == 0 ==> c.next == |data|;
      }
    }
  }

  /** The two halves `isValid` matches are the eight bytes of the PNG signature. */
  lemma SignatureGate(data: seq<Byte>, p: int)
    requires 0 <= p && p + 8 <= |data| <= MAX_LIMIT
    ensures IsValidAt(data, p) == Ok(data[p..p + 8] == PNG_SIGNATURE)
    ensures data[p..p + 8] != PNG_SIGNATURE ==> ParseAt(data, p) == Err(FormatError) && IsAPNGAt(data, p) == Ok(false)
    ensures data[p..p + 8] == PNG_SIGNATURE ==> ParseAt(data, p) == ChunksFrom(data, p + 8)
  {
    var b := data[p..p + 8];
    assert b[..4] == data[p..p + 4] && b[4..] == data[p + 4..p + 8];
    SpellsPart(data[p..p + 4], PNG_MAGIC_HIGH, PNG_SIGNATURE[..4]);
    SpellsPart(data[p + 4..p + 8], PNG_MAGIC_LOW, PNG_SIGNATURE[4..]);
    assert b == PNG_SIGNATURE <==> b[..4] == PNG_SIGNATURE[..4] && b[4..] == PNG_SIGNATURE[4..];
  }

  /** Four bytes spell a part of the magic exactly when they are that part of the signature. */
  lemma SpellsPart(x: seq<Byte>, chars: string, sig: seq<Byte>)
    requires |chars| == |sig| && forall i :: 0 <= i < |sig| ==> chars[i] as int == sig[i]
    ensures BytesSpell(x, chars) <==> x == sig
  {
    if BytesSpell(x, chars) {
      assert forall i :: 0 <= i < |x| ==> x[i] == sig[i];
    }
  }

  /**
   * A chunk of a type the parser does not know is kept as a general chunk and its
   * body skipped: it parses exactly when its length is not negative and the chunk
   * fits in what remains.
   */
  lemma UnknownChunkSkipped(data: seq<Byte>, p: int)
    requires 0 <= p && p + 8 <= |data| <= MAX_LIMIT
    requires FourCCAt(data, p + 4) !in {ACTL_ID, FCTL_ID, FDAT_ID, IDAT_ID, IEND_ID, IHDR_ID}
    ensures var size := IntAt(data, p);
      ChunkAt(data, p).Ok? <==> 0 <= size && p + CHUNK_OVERHEAD + size <= |data|
    ensures ChunkAt(data, p).Ok? ==> ChunkAt(data, p).value.value.body == General
    ensures IntAt(data, p) < 0 ==> ChunkAt(data, p) == Err(OutOfChunk)
  {
    var size := IntAt(data, p);
    if size > 0 {
      SkipForward(data, p + 8, size);
    }
  }

  /** Some chunk of `cs` is an acTL. */
  predicate HasActl(cs: seq<Chunk>)
  {
    exists i :: 0 <= i < |cs| && cs[i].body.Actl?
  }

  lemma HasActlCons(c: Chunk, rest: seq<Chunk>)
    ensures HasActl([c] + rest) <==> c.body.Actl? || HasActl(rest)
  {
    var cs := [c] + rest;
    assert cs[0] == c;
    if HasActl(cs) && !c.body.Actl? {
      var i :| 0 <= i < |cs| && cs[i].body.Actl?;
      assert rest[i - 1] == cs[i];
    }
    if HasActl(rest) {
      var i :| 0 <= i < |rest| && rest[i].body.Actl?;
      assert cs[i + 1] == rest[i];
    }
  }

  /** `isAPNG` on a stream that parses: true exactly when some chunk is an acTL. */
  lemma IsAPNGFindsActl(data: seq<Byte>, p: int)
    requires 0 <= p <= |data| <= MAX_LIMIT
    requires ParseAt(data, p).Ok?
    ensures IsAPNGAt(data, p) == Ok(HasActl(ParseAt(data, p).value))
  {
    ScanFindsActl(data, p + 8);
  }

  lemma {:induction false} ScanFindsActl(data: seq<Byte>, p: int)
    requires 0 <= p <= |data| <= MAX_LIMIT
    requires ChunksFrom(data, p).Ok?
    ensures ScanForActl(data, p) == Ok(HasActl(ChunksFrom(data, p).value))
    decreases |data| - p
  {
    if |data| - p > 0 {
      var c := ChunkAt(data, p).value;
      var rest := ChunksFrom(data, c.next).value;
      assert ChunksFrom(data, p).value == [c.value] + rest;
      HasActlCons(c.value, rest);
      if !c.value.body.Actl? {
        ScanFindsActl(data, c.next);
      }
    }
  }

  // ---------------------------------------------------------------------
  // The walker over the reader.

  method IsValid(r: ByteBufferReader) returns (res: Result<bool>)
    requires r.Valid()
    modifies r
    ensures r.Valid()
    ensures res == IsValidAt(r.data, old(r.pos))
    ensures res == Ok(true) ==> r.pos == old(r.pos) + 8
  {
    var high :- MatchFourCC(r, PNG_MAGIC_HIGH);
    if !high {
      return Ok(false);
    }
    res := MatchFourCC(r, PNG_MAGIC_LOW);
  }

  /** The body parser of each chunk type, dispatched on the FourCC. */
  method ParseBody(r: ByteBufferReader, fourCC: int) returns (res: Result<ChunkBody>)
    requires r.Valid()
    modifies r
    ensures r.Valid()
    ensures var spec := BodyAt(fourCC, r.data, old(r.pos));
      && (res.Ok? <==> spec.Ok?)
      && (res.Ok? ==> res.value == spec.value.value && r.pos == spec.value.next)
      && (res.Err? ==> res.error == spec.error)
  {
    if fourCC == ACTL_ID {
      var numFrames :- ReadInt(r);
      var numPlays :- ReadInt(r);
      res := Ok(Actl(numFrames, numPlays));
    } else if fourCC == FCTL_ID {
      var fields :- ParseFctl(r);
      res := Ok(Fctl(fields));
    } else if fourCC == FDAT_ID {
      var sequenceNumber :- ReadInt(r);
      res := Ok(Fdat(sequenceNumber));
    } else if fourCC == IDAT_ID {
      res := Ok(Idat);
    } else if fourCC == IEND_ID {
      res := Ok(Iend);
    } else if fourCC == IHDR_ID {
      var width :- ReadInt(r);
      var height :- ReadInt(r);
      var data := new Byte[IHDR_DATA_SIZE](_ => 0);
      var n :- r.Read(data, 0, IHDR_DATA_SIZE);
      res := Ok(Ihdr(width, height, data[..]));
    } else {
      res := Ok(General);
    }
  }

  method ParseChunk(r: ByteBufferReader) returns (res: Result<Chunk>)
    requires r.Valid()
    modifies r
    ensures r.Valid()
    ensures var spec := ChunkAt(r.data, old(r.pos));
      && (res.Ok? <==> spec.Ok?)
      && (res.Ok? ==> res.value == spec.value.value && r.pos == spec.value.next)
      && (res.Err? ==> res.error == spec.error)
  {
    var offset := r.Position();
    var size :- ReadInt(r);
    var fourCC := ReadFourCC(r);
    if fourCC.Err? {
      return Err(fourCC.error);
    }
    res := ParseChunkRest(r, offset, size, fourCC.value);
  }

  /** Body, skip and CRC of the chunk whose header ends at the position. */
  method ParseChunkRest(r: ByteBufferReader, offset: int, size: int, fourCC: int) returns (res: Result<Chunk>)
    requires r.Valid() && 0 <= offset && offset + 8 == r.pos && IsInt32(size)
    modifies r
    ensures r.Valid()
    ensures var spec := ChunkRestAt(r.data, offset, size, fourCC);
      && (res.Ok? <==> spec.Ok?)
      && (res.Ok? ==> res.value == spec.value.value && r.pos == spec.value.next)
      && (res.Err? ==> res.error == spec.error)
  {
    ghost var spec := BodyAt(fourCC, r.data, offset + 8);
    var available := r.Available();
    var body :- ParseBody(r, fourCC);
    var left := r.Available();
    var consumed := available - left;
    assert consumed == spec.value.next - (offset + 8);
    if consumed > size {
      return Err(OutOfChunk);
    }
    SkipForward(r.data, r.pos, size - consumed);
    ghost var end := r.pos + size - consumed;
    if consumed < size {
      var skipped :- r.Skip(size - consumed);
    }
    assert r.pos == end;
    var crc :- ReadInt(r);
    res := Ok(Chunk(offset, size, fourCC, crc, body));
  }

  method Parse(r: ByteBufferReader) returns (res: Result<seq<Chunk>>)
    requires r.Valid()
    modifies r
    ensures r.Valid()
    ensures res == ParseAt(r.data, old(r.pos))
  {
    var valid :- IsValid(r);
    if !valid {
      return Err(FormatError);
    }
    ghost var start := r.pos;
    var chunks: seq<Chunk> := [];
    assert Prepend(chunks, ChunksFrom(r.data, r.pos)) == ChunksFrom(r.data, start) by {
      match ChunksFrom(r.data, r.pos)
      case Ok(cs) => assert chunks + cs == cs;
      case Err(e) =>
    }
    var available := r.Available();
    while available > 0
      invariant r.Valid() && available == |r.data| - r.pos
      invariant Prepend(chunks, ChunksFrom(r.data, r.pos)) == ChunksFrom(r.data, start)
      decreases available
    {
      var c :- ParseChunk(r);
      PrependStep(chunks, c, ChunksFrom(r.data, r.pos));
      chunks := chunks + [c];
      available := r.Available();
    }
    assert chunks + [] == chunks;
    res := Ok(chunks);
  }

  method IsAPNG(r: ByteBufferReader) returns (res: Result<bool>)
    requires r.Valid()
    modifies r
    ensures r.Valid()
    ensures res == IsAPNGAt(r.data, old(r.pos))
  {
    var valid := IsValid(r);
    if valid.Err? {
      return if valid.error.IsIOException() then Ok(false) else Err(valid.error);
    }
    if !valid.value {
      return Ok(false);
    }
    ghost var start := r.pos;
    var available := r.Available();
    while available > 0
      invariant r.Valid() && available == |r.data| - r.pos
      invariant ScanForActl(r.data, r.pos) == ScanForActl(r.data, start)
      decreases available
    {
      var c := ParseChunk(r);
      if c.Err? {
        return if c.error.IsIOException() then Ok(false) else Err(c.error);
      }
      if c.value.body.Actl? {
        return Ok(true);
      }
      available := r.Available();
    }
    res := Ok(false);
  }
}
