/**
 * PNG chunk records (section 5.3 of the PNG specification) and the FourCC
 * packing that names their types. Every chunk keeps where it starts, its declared
 * length and type, the CRC that trails it, and what its body parser read.
 */
module APNGChunks {
  import opened Bytes
  import opened ByteBufferReaders
  import opened APNGReaders

  /** What a string of any other length than four packs to. */
  const BAD_FOURCC: int := -0x45210001

  /**
   * Character i contributes `(code and 0xff) shl 8i`; the four are or-ed into
   * a Kotlin `Int`, so a high byte of 0x80 or more makes it negative.
   */
  function FourCCToInt(fourCC: string): (r: int)
    ensures IsInt32(r)
    ensures |fourCC| != 4 ==> r == BAD_FOURCC
  {
    if |fourCC| == 4 then
      I32(LE32(LowByte(fourCC[0]), LowByte(fourCC[1]), LowByte(fourCC[2]), LowByte(fourCC[3])))
    else
      BAD_FOURCC
  }

  /** Byte i of a packed four-character string is the low byte of character i. */
  lemma FourCCToIntBytes(fourCC: string)
    requires |fourCC| == 4
    ensures LE4(FourCCToInt(fourCC)) == LowBytes(fourCC)
  {
    LE4OfLE32(LowByte(fourCC[0]), LowByte(fourCC[1]), LowByte(fourCC[2]), LowByte(fourCC[3]));
  }

  /** The `ID` of each chunk class: `fourCCToInt` of its type name (`ChunkIds` proves it). */
  const ACTL_ID: int := 0x4C54_6361
  const FCTL_ID: int := 0x4C54_6366
  const FDAT_ID: int := 0x5441_6466
  const IDAT_ID: int := 0x5441_4449
  const IEND_ID: int := 0x444E_4549
  const IHDR_ID: int := 0x5244_4849

  /** The fields of an `fcTL` chunk, in stream order. */
  datatype FctlFields = FctlFields(
    sequenceNumber: int,
    width: int,
    height: int,
    xOffset: int,
    yOffset: int,
    delayNum: int,    // a Kotlin Short
    delayDen: int,    // a Kotlin Short
    disposeOp: int,   // a Kotlin Byte
    blendOp: int)     // a Kotlin Byte

  /** What each chunk type's body parser keeps. */
  datatype ChunkBody =
    | Actl(numFrames: int, numPlays: int)
    | Fctl(fctl: FctlFields)
    | Fdat(sequenceNumber: int)
    | Idat
    | Iend
    | Ihdr(width: int, height: int, data: seq<Byte>)
    | FramePrefix
    | General

  /** `offset` is where the length field starts; `length` counts the body only. */
  datatype Chunk = Chunk(offset: int, length: int, fourCC: int, crc: int, body: ChunkBody)

  /** The header every body parser is handed. */
  datatype ChunkPrefix = ChunkPrefix(offset: int, length: int, fourCC: int)

  /** A chunk replayed verbatim before each frame: the header and the CRC, unchanged. */
  function PrefixToChunk(prefix: ChunkPrefix, crc: int): (c: Chunk)
    ensures c.offset == prefix.offset && c.length == prefix.length
    ensures c.fourCC == prefix.fourCC && c.crc == crc && c.body == FramePrefix
  {
    Chunk(prefix.offset, prefix.length, prefix.fourCC, crc, FramePrefix)
  }

  /** Packing a four-character string gives what `readFourCC` reads from its bytes. */
  lemma FourCCToIntIsReadFourCC(fourCC: string)
    requires |fourCC| == 4
    ensures FourCCToInt(fourCC) == FourCCAt(LowBytes(fourCC), 0)
  {
    var b := LowBytes(fourCC);
    assert b[0] == LowByte(fourCC[0]) && b[1] == LowByte(fourCC[1]);
    assert b[2] == LowByte(fourCC[2]) && b[3] == LowByte(fourCC[3]);
  }

  /** Two FourCCs of 8-bit characters pack to the same `Int` only if they are the same. */
  lemma FourCCToIntInjective(s: string, t: string)
    requires |s| == 4 && |t| == 4
    requires forall i :: 0 <= i < 4 ==> s[i] as int < 256 && t[i] as int < 256
    requires FourCCToInt(s) == FourCCToInt(t)
    ensures s == t
  {
    var bs := [LowByte(s[0]), LowByte(s[1]), LowByte(s[2]), LowByte(s[3])];
    var bt := [LowByte(t[0]), LowByte(t[1]), LowByte(t[2]), LowByte(t[3])];
    LE4OfLE32(bs[0], bs[1], bs[2], bs[3]);
    LE4OfLE32(bt[0], bt[1], bt[2], bt[3]);
    assert FourCCToInt(s) == I32(LE32(bs[0], bs[1], bs[2], bs[3]));
    assert FourCCToInt(t) == I32(LE32(bt[0], bt[1], bt[2], bt[3]));
    assert LE4(FourCCToInt(s)) == bs;
    assert LE4(FourCCToInt(t)) == bt;
    assert bs == bt;
    forall i | 0 <= i < 4
      ensures s[i] == t[i]
    {
      assert bs[i] == bt[i];
      DivMod256(s[i] as int, 0, s[i] as int);
      DivMod256(t[i] as int, 0, t[i] as int);
    }
  }

  /** Each chunk type's code is its name packed by `fourCCToInt`. */
  lemma ChunkIds()
    ensures ACTL_ID == FourCCToInt("acTL") && FCTL_ID == FourCCToInt("fcTL") && FDAT_ID == FourCCToInt("fdAT")
    ensures IDAT_ID == FourCCToInt("IDAT") && IEND_ID == FourCCToInt("IEND") && IHDR_ID == FourCCToInt("IHDR")
  {
    assert LowBytes("acTL") == [0x61, 0x63, 0x54, 0x4C];
    FourCCToIntIsReadFourCC("acTL");
    assert LowBytes("fcTL") == [0x66, 0x63, 0x54, 0x4C];
    FourCCToIntIsReadFourCC("fcTL");
  }
}
