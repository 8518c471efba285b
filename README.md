# APNG4Android core, modelled in Dafny

This project models the decoding core of APNG4Android, an Android library that
plays animated PNG (APNG), animated WebP and GIF images frame by frame. The model
covers five parts of that core:

- **Byte codecs.** These are the positioned little-endian readers and writers over a
  byte buffer, plus the format-specific readers and writers built on them: the
  big-endian APNG reader and writer, the RIFF/WebP reader and writer, and the GIF reader.
- **Container parsers.** The APNG chunk stream (IHDR, acTL, fcTL, IDAT, fdAT, IEND), the
  RIFF/WebP chunk stream (VP8X, ANIM, ANMF, VP8, VP8L, ALPH) and the GIF blocks
  (logical screen descriptor, image descriptor, graphic control and application
  extensions) are parsed into frames together with their geometry, delays and
  disposal and blend rules.
- **Single-frame re-encoding.** An APNG frame becomes a still PNG, with IHDR rewritten
  and fdAT turned into IDAT. A WebP frame becomes a still RIFF/VP8X file.
- **Compositing.** Each decoder draws a frame onto the frame buffer, saves a snapshot,
  then disposes the frame (restore to background, restore to previous, or keep).
  Pixels are abstract values, and blending is an abstract source-over.
- **Playback and pooling.** The frame sequence decoder's state machine (IDLE,
  RUNNING, INITIALIZING, FINISHING) covers frame stepping, loop counting, sampling,
  the render schedule and `getFrameBitmap`. The bitmap pool reuses bitmaps by size.

Imperative code in the source (readers and writers over a buffer, the decoders'
render methods, the playback object, the pool) is modelled as classes whose
methods are proved against specification functions. Pure computations (chunk and
block layouts, geometry, disposal, frame stepping) are modelled as functions, with
lemmas relating them: round trips, bounds, invariants and "nothing else changes".
When the overview documentation and the code disagree, the model follows the code.

## Model

| member | source | states |
|---|---|---|
| `Bytes.LE16OfLE2` | awebp/src/main/java/com/github/penfeizhou/animation/webp/io/WebPWriter.kt:12-15 | the two bytes `putUInt16` emits decode little-endian to the value modulo 2^16 |
| `Bytes.LE24OfLE3` | awebp/src/main/java/com/github/penfeizhou/animation/webp/io/WebPWriter.kt:17-21 | the three bytes `putUInt24` emits decode little-endian to the value modulo 2^24 |
| `Bytes.LE32OfLE4` | awebp/src/main/java/com/github/penfeizhou/animation/webp/io/WebPWriter.kt:23-28 | the four bytes `putUInt32`/`writeFourCC` emit decode little-endian to the value modulo 2^32 |
| `Bytes.BE32OfBE4` | apng/src/main/java/com/github/penfeizhou/animation/apng/io/APNGWriter.kt:13-18 | the four bytes `writeInt` emits decode big-endian to the value modulo 2^32 |
| `Bytes.I32OfMod` | apng/src/main/java/com/github/penfeizhou/animation/apng/io/APNGReader.kt:15-22 | reading an unsigned 32-bit pattern back into a Kotlin `Int` recovers every `Int` |
| `Bytes.LE4OfLE32` | apng/src/main/java/com/github/penfeizhou/animation/apng/io/APNGReader.kt:50-54 | the other direction: re-encoding a little-endian decode (signed or not) gives back the four bytes |
| `Bytes.BE4OfBE32` | apng/src/main/java/com/github/penfeizhou/animation/apng/io/APNGReader.kt:15-22 | re-encoding a big-endian decode (signed or not) gives back the four bytes |
| `Bytes.SignedByte` | gif/src/main/java/com/github/penfeizhou/animation/gif/decode/ApplicationExtension.kt:16 | a Kotlin `Byte.toInt()` without masking: in [-128, 128), congruent to the byte, negative exactly from 0x80 on |
| `Bytes.I32` | frameanimation/src/main/java/com/github/penfeizhou/animation/io/ByteBufferReader.kt:18 | the truncation to a Kotlin `Int`: a 32-bit signed value congruent to its input modulo 2^32 |
| `Bytes.I16` | apng/src/main/java/com/github/penfeizhou/animation/apng/io/APNGReader.kt:28-29 | the `toShort()` truncation: a 16-bit signed value congruent to its input modulo 2^16 |
| `Bytes.TruncDiv` | apng/src/main/java/com/github/penfeizhou/animation/apng/decode/APNGDecoder.kt:142-150 | Kotlin `Int` division: rounds towards zero, and the sign of the quotient follows the operands |
| `Bytes.LE16` | gif/src/main/java/com/github/penfeizhou/animation/gif/io/GifReader.kt:17 | a little-endian 16-bit decode lies in [0, 2^16) |
| `Bytes.LE24` | awebp/src/main/java/com/github/penfeizhou/animation/webp/io/WebPReader.kt:30 | a little-endian 24-bit decode lies in [0, 2^24) |
| `Bytes.LE32` | awebp/src/main/java/com/github/penfeizhou/animation/webp/io/WebPReader.kt:40 | a little-endian 32-bit decode lies in [0, 2^32) before the `Int` truncation |
| `Bytes.BE16` | apng/src/main/java/com/github/penfeizhou/animation/apng/io/APNGReader.kt:28-29 | a big-endian 16-bit decode lies in [0, 2^16) |
| `Bytes.BE32` | apng/src/main/java/com/github/penfeizhou/animation/apng/io/APNGReader.kt:18-21 | a big-endian 32-bit decode lies in [0, 2^32) before the `Int` truncation |
| `Bytes.LowBytes` | awebp/src/main/java/com/github/penfeizhou/animation/webp/io/WebPWriter.kt:39-42 | one byte per character, as `putFourCC` emits them |
| `ByteBufferReaders.SkipForward` | frameanimation/src/main/java/com/github/penfeizhou/animation/io/ByteBufferReader.kt:17-20 | a skip by a non-negative `Int` amount succeeds iff it stays within the limit, and then lands exactly that many bytes on |
| `ByteBufferReaders.ByteBufferReader.constructor` | frameanimation/src/main/java/com/github/penfeizhou/animation/io/ByteBufferReader.kt:12-15 | wrapping a buffer sets the position to 0 |
| `ByteBufferReaders.ByteBufferReader.Skip` | frameanimation/src/main/java/com/github/penfeizhou/animation/io/ByteBufferReader.kt:17-20 | the position becomes `position + total` truncated to an `Int` and `total` is returned; a target outside [0, limit] is refused and the position kept |
| `ByteBufferReaders.ByteBufferReader.Peek` | frameanimation/src/main/java/com/github/penfeizhou/animation/io/ByteBufferReader.kt:22 | returns the byte at the position and advances by 1; at the limit it underflows and nothing moves |
| `ByteBufferReaders.ByteBufferReader.Reset` | frameanimation/src/main/java/com/github/penfeizhou/animation/io/ByteBufferReader.kt:24-26 | the position is 0 again |
| `ByteBufferReaders.ByteBufferReader.Position` | frameanimation/src/main/java/com/github/penfeizhou/animation/io/ByteBufferReader.kt:28 | the current position, within [0, limit] |
| `ByteBufferReaders.ByteBufferReader.Read` | frameanimation/src/main/java/com/github/penfeizhou/animation/io/ByteBufferReader.kt:30-33 | fills exactly `buffer[start, start + n)` with the next n bytes, keeps the rest of the array, advances by n and returns n; a bad range or too few bytes is an error that changes nothing |
| `ByteBufferReaders.ByteBufferReader.Available` | frameanimation/src/main/java/com/github/penfeizhou/animation/io/ByteBufferReader.kt:35-37 | limit minus position, never negative |
| `ByteBufferReaders.ReadScratch` | apng/src/main/java/com/github/penfeizhou/animation/apng/io/APNGReader.kt:59-66 | a fixed-width read into the 4-byte scratch array: its first n bytes are the stream's next n, or an underflow that leaves the cursor |
| `ByteBufferWriters.ByteBufferWriter.constructor` | frameanimation/src/main/java/com/github/penfeizhou/animation/io/ByteBufferWriter.kt:11-16 | a new writer holds a zeroed buffer of 10 KiB at position 0 |
| `ByteBufferWriters.ByteBufferWriter.Reset` | frameanimation/src/main/java/com/github/penfeizhou/animation/io/ByteBufferWriter.kt:18-24 | position 0; a new zeroed buffer only when the size exceeds the capacity, so capacity never shrinks, otherwise the same buffer and contents |
| `ByteBufferWriters.ByteBufferWriter.PutByte` | frameanimation/src/main/java/com/github/penfeizhou/animation/io/ByteBufferWriter.kt:26-28 | the byte lands at the position, every other byte is kept, the position advances by 1 |
| `ByteBufferWriters.ByteBufferWriter.PutBytes` | frameanimation/src/main/java/com/github/penfeizhou/animation/io/ByteBufferWriter.kt:30-32 | the bytes land at the position, the rest is kept, the position advances by their count |
| `ByteBufferWriters.ByteBufferWriter.Position` | frameanimation/src/main/java/com/github/penfeizhou/animation/io/ByteBufferWriter.kt:34 | the current position, within the capacity |
| `ByteBufferWriters.ByteBufferWriter.Skip` | frameanimation/src/main/java/com/github/penfeizhou/animation/io/ByteBufferWriter.kt:36-38 | the position moves by `length` and no byte changes |
| `ByteBufferWriters.ByteBufferWriter.ToByteArray` | frameanimation/src/main/java/com/github/penfeizhou/animation/io/ByteBufferWriter.kt:40 | the backing array itself, not a copy |
| `APNGReaders.IntAtInside` | apng/src/main/java/com/github/penfeizhou/animation/apng/io/APNGReader.kt:15-22 | a 4-byte field reads the same wherever its bytes sit in a longer stream |
| `APNGReaders.ReadInt` | apng/src/main/java/com/github/penfeizhou/animation/apng/io/APNGReader.kt:15-22 | the next 4 bytes big-endian as a signed `Int`, consuming 4; an underflow otherwise |
| `APNGReaders.ReadShort` | apng/src/main/java/com/github/penfeizhou/animation/apng/io/APNGReader.kt:25-30 | the next 2 bytes big-endian as a signed `Short`, consuming 2 |
| `APNGReaders.ReadFourCC` | apng/src/main/java/com/github/penfeizhou/animation/apng/io/APNGReader.kt:50-54 | the next 4 bytes little-endian: byte i in bits 8i..8i+7 |
| `APNGReaders.MatchFourCC` | apng/src/main/java/com/github/penfeizhou/animation/apng/io/APNGReader.kt:36-47 | false without reading for a string whose length is not 4; otherwise 4 bytes are consumed and the answer is whether byte i equals the code of character i for every i |
| `APNGWriters.WriteFourCC` | apng/src/main/java/com/github/penfeizhou/animation/apng/io/APNGWriter.kt:6-11 | appends the value's 4 bytes, least significant first, at the position, and leaves every other byte of the buffer as it was |
| `APNGWriters.WriteInt` | apng/src/main/java/com/github/penfeizhou/animation/apng/io/APNGWriter.kt:13-18 | appends the value's 4 bytes, most significant first, at the position, and leaves every other byte of the buffer as it was |
| `APNGWriters.ReadIntAfterWriteInt` | apng/src/main/java/com/github/penfeizhou/animation/apng/io/APNGWriter.kt:13-18 | `readInt` after `writeInt(v)` returns v, for every `Int` v |
| `APNGWriters.ReadFourCCAfterWriteFourCC` | apng/src/main/java/com/github/penfeizhou/animation/apng/io/APNGWriter.kt:6-11 | `readFourCC` after `writeFourCC(v)` returns v, for every `Int` v |
| `WebPReaders.ReadUInt16` | awebp/src/main/java/com/github/penfeizhou/animation/webp/io/WebPReader.kt:17-21 | the next 2 bytes little-endian, in [0, 2^16), consuming 2 |
| `WebPReaders.ReadUInt24` | awebp/src/main/java/com/github/penfeizhou/animation/webp/io/WebPReader.kt:27-31 | the next 3 bytes little-endian, in [0, 2^24), consuming 3 |
| `WebPReaders.ReadUInt32` | awebp/src/main/java/com/github/penfeizhou/animation/webp/io/WebPReader.kt:37-41 | the next 4 bytes little-endian, truncated to a signed `Int` |
| `WebPReaders.ReadFourCC` | awebp/src/main/java/com/github/penfeizhou/animation/webp/io/WebPReader.kt:47-51 | the same value `readUInt32` computes over the same bytes |
| `WebPReaders.Read1Based` | awebp/src/main/java/com/github/penfeizhou/animation/webp/io/WebPReader.kt:57-59 | `readUInt24() + 1`, so in [1, 2^24] |
| `WebPReaders.MatchFourCC` | awebp/src/main/java/com/github/penfeizhou/animation/webp/io/WebPReader.kt:65-76 | false without reading for a length other than 4, otherwise a bytewise comparison of the 4 bytes consumed |
| `WebPWriters.PutUInt16` | awebp/src/main/java/com/github/penfeizhou/animation/webp/io/WebPWriter.kt:12-15 | appends 2 bytes, low byte first, and keeps the rest of the buffer |
| `WebPWriters.PutUInt24` | awebp/src/main/java/com/github/penfeizhou/animation/webp/io/WebPWriter.kt:17-21 | appends 3 bytes, low byte first |
| `WebPWriters.PutUInt32` | awebp/src/main/java/com/github/penfeizhou/animation/webp/io/WebPWriter.kt:23-28 | appends 4 bytes, low byte first |
| `WebPWriters.Put1Based` | awebp/src/main/java/com/github/penfeizhou/animation/webp/io/WebPWriter.kt:30-32 | appends `i - 1` as a 24-bit field |
| `WebPWriters.PutFourCC` | awebp/src/main/java/com/github/penfeizhou/animation/webp/io/WebPWriter.kt:34-43 | four characters go out as the low bytes of their codes; any other string skips 4 bytes and leaves the buffer unchanged |
| `WebPWriters.ReadUInt16AfterPutUInt16` | gif/src/main/java/com/github/penfeizhou/animation/gif/io/GifReader.kt:14-18 | `readUInt16` (WebP or GIF) after `putUInt16(v)` returns v modulo 2^16 |
| `WebPWriters.ReadUInt24AfterPutUInt24` | awebp/src/main/java/com/github/penfeizhou/animation/webp/io/WebPWriter.kt:17-21 | `readUInt24` after `putUInt24(v)` returns v modulo 2^24 |
| `WebPWriters.ReadUInt32AfterPutUInt32` | awebp/src/main/java/com/github/penfeizhou/animation/webp/io/WebPWriter.kt:23-28 | `readUInt32` after `putUInt32(v)` returns v, for every `Int` v |
| `WebPWriters.Read1BasedAfterPut1Based` | awebp/src/main/java/com/github/penfeizhou/animation/webp/io/WebPWriter.kt:30-32 | `read1Based` after `put1Based(i)` returns i for every i in [1, 2^24] |
| `WebPWriters.MatchAfterPutFourCC` | awebp/src/main/java/com/github/penfeizhou/animation/webp/io/WebPWriter.kt:39-42 | a FourCC of 8-bit characters, once written, matches itself |
| `GifReaders.ReadUInt16` | gif/src/main/java/com/github/penfeizhou/animation/gif/io/GifReader.kt:14-18 | consumes exactly 2 bytes and returns their little-endian value, in [0, 65535] |
| `APNGChunks.FourCCToInt` | apng/src/main/java/com/github/penfeizhou/animation/apng/decode/Chunk.kt:15-24 | an `Int` whatever the string; any length but 4 gives the sentinel -0x45210001 |
| `APNGChunks.FourCCToIntBytes` | apng/src/main/java/com/github/penfeizhou/animation/apng/decode/Chunk.kt:15-21 | byte i of the packed value (bits 8i..8i+7) is the low byte of character i |
| `APNGChunks.FourCCToIntIsReadFourCC` | apng/src/main/java/com/github/penfeizhou/animation/apng/decode/Chunk.kt:15-21 | packing a four-character string equals `readFourCC` over the string's bytes |
| `APNGChunks.FourCCToIntInjective` | apng/src/main/java/com/github/penfeizhou/animation/apng/decode/Chunk.kt:15-21 | two FourCCs of 8-bit characters pack to the same `Int` only when they are equal, so the chunk dispatch tells types apart |
| `APNGChunks.ChunkIds` | apng/src/main/java/com/github/penfeizhou/animation/apng/decode/FCTLChunk.kt:108 | the dispatch constants are `fourCCToInt` of "acTL", "fcTL", "fdAT", "IDAT", "IEND" and "IHDR" |
| `APNGChunks.PrefixToChunk` | apng/src/main/java/com/github/penfeizhou/animation/apng/decode/Chunk.kt:34-41 | `FramePrefixChunk.Parser` copies offset, length, FourCC and CRC unchanged |
| `FCTLChunks.FctlAt` | apng/src/main/java/com/github/penfeizhou/animation/apng/decode/FCTLChunk.kt:79-89 | the body parses iff 26 bytes remain, and then exactly 26 are consumed |
| `FCTLChunks.ParseFctl` | apng/src/main/java/com/github/penfeizhou/animation/apng/decode/FCTLChunk.kt:79-89 | reads sequence number, width, height, x, y as BE32, the delay fraction as BE16 and dispose and blend as signed bytes, in that order, as `FctlAt` |
| `FCTLChunks.ReadFrameRect` | apng/src/main/java/com/github/penfeizhou/animation/apng/decode/FCTLChunk.kt:80-84 | the first five fields are read iff 20 bytes remain: each is the BE32 at its offset, and the position moves by 20 |
| `FCTLChunks.ReadTiming` | apng/src/main/java/com/github/penfeizhou/animation/apng/decode/FCTLChunk.kt:85-88 | the delay fraction and the two ops are read iff 6 bytes remain: two BE16 values, then two signed bytes |
| `FCTLChunks.ToChunk` | apng/src/main/java/com/github/penfeizhou/animation/apng/decode/FCTLChunk.kt:90-104 | `toChunk` copies the header, the CRC and every parsed field unchanged |
| `APNGParsers.BodyAt` | apng/src/main/java/com/github/penfeizhou/animation/apng/decode/APNGParser.kt:114-126 | the body kind matches the type code exactly (acTL, fcTL, fdAT, IDAT, IHDR), an unknown code is a general chunk, an IHDR keeps 5 data bytes, an fdAT reads its 4-byte sequence number, and the only failure is an underflow |
| `APNGParsers.ChunkAt` | apng/src/main/java/com/github/penfeizhou/animation/apng/decode/APNGParser.kt:110-129 | a parsed chunk starts at the position with its BE32 length, then its FourCC, and its BE32 CRC ends it; the next chunk starts at offset + 12 + length |
| `APNGParsers.ChunkRestAt` | apng/src/main/java/com/github/penfeizhou/animation/apng/decode/APNGParser.kt:123-128 | once the header is read: the chunk keeps offset, length and type, and the CRC is read right after the declared body |
| `Results.PrependStep` | apng/src/main/java/com/github/penfeizhou/animation/apng/decode/APNGParser.kt:99-103 | one turn of a chunk walk (the APNG and the WebP `parse` loops) moves the chunk just read from the rest of the stream to the end of the list, so the list stays in stream order, and an error of the rest stays that error |
| `APNGParsers.ChunksTile` | apng/src/main/java/com/github/penfeizhou/animation/apng/decode/APNGParser.kt:99-103 | a successful walk is a list of adjacent well-formed chunks whose first starts at the position and whose last ends exactly at the limit |
| `APNGParsers.SignatureGate` | apng/src/main/java/com/github/penfeizhou/animation/apng/decode/APNGParser.kt:96-98 | `isValid` accepts exactly the 8 bytes 89 50 4E 47 0D 0A 1A 0A; otherwise `parse` fails with a format error and `isAPNG` is false |
| `APNGParsers.UnknownChunkSkipped` | apng/src/main/java/com/github/penfeizhou/animation/apng/decode/APNGParser.kt:121 | a chunk of an unknown type is a general chunk, never an error of its own: it parses iff its length is non-negative and it fits |
| `APNGParsers.HasActlCons` | apng/src/main/java/com/github/penfeizhou/animation/apng/decode/APNGParser.kt:81-85 | a list holds an acTL iff its head is one or its tail holds one |
| `APNGParsers.IsAPNGFindsActl` | apng/src/main/java/com/github/penfeizhou/animation/apng/decode/APNGParser.kt:75-92 | on a stream that parses, `isAPNG` is true exactly when some parsed chunk is an acTL |
| `APNGParsers.ScanFindsActl` | apng/src/main/java/com/github/penfeizhou/animation/apng/decode/APNGParser.kt:81-85 | the scan of `isAPNG` finds an acTL iff the chunk list `parse` builds holds one |
| `APNGParsers.IsValid` | apng/src/main/java/com/github/penfeizhou/animation/apng/decode/APNGParser.kt:106-107 | the two FourCC matches; the second half is read only when the first matched |
| `APNGParsers.ParseBody` | apng/src/main/java/com/github/penfeizhou/animation/apng/decode/APNGParser.kt:114-126 | the body parser dispatched on the type code computes `BodyAt`, with the same stop position and error |
| `APNGParsers.ParseChunk` | apng/src/main/java/com/github/penfeizhou/animation/apng/decode/APNGParser.kt:110-129 | `parseChunk` computes `ChunkAt`: same chunk, same next position, same error |
| `APNGParsers.ParseChunkRest` | apng/src/main/java/com/github/penfeizhou/animation/apng/decode/APNGParser.kt:123-128 | body, skip to the declared end, CRC: computes `ChunkRestAt`; a body that read past its length is an error |
| `APNGParsers.Parse` | apng/src/main/java/com/github/penfeizhou/animation/apng/decode/APNGParser.kt:95-104 | a format error on a bad signature, otherwise every chunk until nothing is available, in stream order, or the first error |
| `APNGParsers.IsAPNG` | apng/src/main/java/com/github/penfeizhou/animation/apng/decode/APNGParser.kt:75-92 | false on a bad signature or an `IOException`, true when an acTL is met, false at the end of the stream |
| `APNGFrames.Duration` | apng/src/main/java/com/github/penfeizhou/animation/apng/decode/APNGFrame.kt:174-187 | a frame's duration is never under 10 ms |
| `APNGFrames.DurationOfDelay` | apng/src/main/java/com/github/penfeizhou/animation/apng/decode/APNGFrame.kt:174-187 | a zero denominator counts as 100; a delay of at least 10 ms is `num * 1000 / den`; a shorter one becomes 100 ms |
| `APNGFrames.NewFrame` | apng/src/main/java/com/github/penfeizhou/animation/apng/decode/APNGFrame.kt:17-32 | the frame takes its position, size, blend and dispose ops from its fcTL, its duration from `getDuration`, and keeps its index and its chunks |
| `APNGFrames.CopiedSize` | apng/src/main/java/com/github/penfeizhou/animation/apng/decode/APNGFrame.kt:142 | the prefix chunks copied whole take `Σ (length + 12)` bytes |
| `APNGFrames.ImageChunkBytesSize` | apng/src/main/java/com/github/penfeizhou/animation/apng/decode/APNGFrame.kt:145-150 | a rewritten fdAT takes `length + 8` bytes, a copied IDAT `length + 12` |
| `APNGFrames.ImageBytesSize` | apng/src/main/java/com/github/penfeizhou/animation/apng/decode/APNGFrame.kt:145-150 | the image chunks written take the size `calculateFrameSizeInBytes` sums for them |
| `APNGFrames.EncodedFrameSize` | apng/src/main/java/com/github/penfeizhou/animation/apng/decode/APNGFrame.kt:138-154 | the encoded frame is exactly `calculateFrameSizeInBytes` long: 33 + prefix sizes + image sizes + 12 |
| `APNGFrames.EncodedFrameIsPng` | apng/src/main/java/com/github/penfeizhou/animation/apng/decode/APNGFrame.kt:88-101 | the encoded frame starts with the PNG signature and an IHDR of length 13 carrying the frame's width, height and the 5 original bytes, and ends with the fixed IEND chunk |
| `APNGFrames.HeaderInside` | apng/src/main/java/com/github/penfeizhou/animation/apng/decode/APNGFrame.kt:89-97 | the IHDR fields keep their offsets after the signature, whatever follows |
| `APNGFrames.IhdrChunkLayout` | apng/src/main/java/com/github/penfeizhou/animation/apng/decode/APNGFrame.kt:92-101 | the IHDR chunk is 25 bytes: length 13, type IHDR, width, height, the 5 bytes, then the CRC |
| `APNGFrames.FdatBecomesIdat` | apng/src/main/java/com/github/penfeizhou/animation/apng/decode/APNGFrame.kt:119-131 | an fdAT becomes an IDAT of length `len - 4` holding the body after the sequence number, with the CRC over type and body |
| `APNGFrames.CopiedVerbatim` | apng/src/main/java/com/github/penfeizhou/animation/apng/decode/APNGFrame.kt:104-118 | each prefix or IDAT chunk reaches the output byte for byte, `len + 12` bytes |
| `APNGFrames.ImageBytesSnoc` | apng/src/main/java/com/github/penfeizhou/animation/apng/decode/APNGFrame.kt:111-133 | one more image chunk appends its bytes and its size, in order |
| `APNGFrames.PrefixSizeBound` | apng/src/main/java/com/github/penfeizhou/animation/apng/decode/APNGFrame.kt:142 | the bytes of the first i prefix chunks never exceed those of all of them, so the loop never writes past the size computed first |
| `APNGFrames.ImageSizeBound` | apng/src/main/java/com/github/penfeizhou/animation/apng/decode/APNGFrame.kt:145-150 | the same bound for the image chunks |
| `APNGFrames.CopyFromStream` | apng/src/main/java/com/github/penfeizhou/animation/apng/decode/APNGFrame.kt:105-108 | reset, skip to the offset, read n bytes into the writer's array at its position, skip the writer by n: the writer gains exactly those stream bytes |
| `APNGFrames.WriteIhdr` | apng/src/main/java/com/github/penfeizhou/animation/apng/decode/APNGFrame.kt:91-101 | writes the IHDR chunk, its CRC computed over the 17 bytes after the length field |
| `APNGFrames.WrittenTail` | apng/src/main/java/com/github/penfeizhou/animation/apng/decode/APNGFrame.kt:100 | the bytes `crc32.update` reads back from the writer's array are the ones just written |
| `APNGFrames.WriteImageChunk` | apng/src/main/java/com/github/penfeizhou/animation/apng/decode/APNGFrame.kt:112-132 | an IDAT is copied whole, an fdAT rewritten as IDAT |
| `APNGFrames.WriteIdatOfFdat` | apng/src/main/java/com/github/penfeizhou/animation/apng/decode/APNGFrame.kt:119-131 | the fdAT branch writes `len - 4`, the IDAT type, the fdAT body after its sequence number and the CRC of type and body |
| `APNGFrames.WriteCrc` | apng/src/main/java/com/github/penfeizhou/animation/apng/decode/APNGFrame.kt:128-130 | appends the CRC of the last `len` bytes written as a big-endian `Int` |
| `APNGFrames.WriteIdatTagged` | apng/src/main/java/com/github/penfeizhou/animation/apng/decode/APNGFrame.kt:122-127 | writes the IDAT type and the fdAT body from offset + 12 |
| `APNGFrames.CopyPrefixChunks` | apng/src/main/java/com/github/penfeizhou/animation/apng/decode/APNGFrame.kt:104-109 | the prefix loop writes every prefix chunk whole, in order |
| `APNGFrames.CopyNextPrefixChunk` | apng/src/main/java/com/github/penfeizhou/animation/apng/decode/APNGFrame.kt:105-108 | one turn of the prefix loop appends chunk i and its size |
| `APNGFrames.WriteImageChunks` | apng/src/main/java/com/github/penfeizhou/animation/apng/decode/APNGFrame.kt:111-133 | the image loop writes every image chunk in order, IDATs copied and fdATs rewritten |
| `APNGFrames.WriteNextImageChunk` | apng/src/main/java/com/github/penfeizhou/animation/apng/decode/APNGFrame.kt:112-132 | one turn of the image loop appends chunk i's bytes and size |
| `APNGFrames.Encode` | apng/src/main/java/com/github/penfeizhou/animation/apng/decode/APNGFrame.kt:86-136 | after `reset(frameSizeInBytes)` the writer holds exactly the encoded frame and its position is exactly `calculateFrameSizeInBytes`, within the buffer |
| `APNGDecoders.AnimFrames` | apng/src/main/java/com/github/penfeizhou/animation/apng/decode/APNGDecoder.kt:60-70 | one APNG frame per frame data, in order, frame i built from frame data i with index i and the shared IHDR bytes and prefix chunks |
| `APNGDecoders.ReadInfo` | apng/src/main/java/com/github/penfeizhou/animation/apng/decode/APNGDecoder.kt:52-79 | the viewport is the IHDR size; the loop count is `num_plays` when there is an acTL, else 1; animated iff there is an acTL; otherwise one canvas-sized still frame if there is image data, else no frame |
| `APNGDecoders.AnimatedFramesInOrder` | apng/src/main/java/com/github/penfeizhou/animation/apng/decode/APNGDecoder.kt:60-70 | frame i of an animated image knows its position i, its own image chunks, the shared prefix chunks and its fcTL's dispose and blend ops |
| `APNGDecoders.FrameInsideCanvas` | apng/src/main/java/com/github/penfeizhou/animation/apng/decode/FCTLChunk.kt:12-17 | a frame whose fcTL keeps the documented constraints covers a rectangle inside the sampled canvas |
| `APNGDecoders.NextSnapShot` | apng/src/main/java/com/github/penfeizhou/animation/apng/decode/APNGDecoder.kt:134-156 | the snapshot records the frame's dispose op and its sampled rectangle; the saved canvas is replaced by the disposed canvas exactly when `TakesSnapshot` holds |
| `APNGDecoders.PreparedSize` | apng/src/main/java/com/github/penfeizhou/animation/apng/decode/APNGDecoder.kt:84-87 | preparing and snapshotting keep the bitmap the size of the sampled canvas |
| `APNGDecoders.FirstFrameStartsClear` | apng/src/main/java/com/github/penfeizhou/animation/apng/decode/APNGDecoder.kt:116-117 | frame 0 is drawn on a fully transparent canvas, whatever was shown before |
| `APNGDecoders.NoneKeepsOutput` | apng/src/main/java/com/github/penfeizhou/animation/apng/decode/APNGDecoder.kt:128 | after a frame with dispose op NONE the next frame starts from its output |
| `APNGDecoders.BackgroundClearsRegion` | apng/src/main/java/com/github/penfeizhou/animation/apng/decode/APNGDecoder.kt:126-127 | after a frame with dispose op BACKGROUND the next frame starts from its output with exactly that frame's rectangle cleared |
| `APNGDecoders.PreviousRestoresCanvas` | apng/src/main/java/com/github/penfeizhou/animation/apng/decode/APNGDecoder.kt:122-125 | after a frame with dispose op PREVIOUS the next frame starts from the whole canvas as it was just before that frame was drawn |
| `APNGDecoders.SourceReplacesRegion` | apng/src/main/java/com/github/penfeizhou/animation/apng/decode/APNGDecoder.kt:142-150 | with SOURCE blending only the frame's own pixels show inside its rectangle `(x/s, y/s, (x+w)/s, (y+h)/s)` |
| `APNGDecoders.NextSnapShotAsWritten` | apng/src/main/java/com/github/penfeizhou/animation/apng/decode/APNGDecoder.kt:134-139 | the snapshot rule as written: saved iff the frame's op is PREVIOUS and the recorded op is not, frame 0 included |
| `APNGDecoders.StaleSnapshotAfterLoop` | apng/src/main/java/com/github/penfeizhou/animation/apng/decode/APNGDecoder.kt:134-139 | on a 1 x 1 canvas looping from a PREVIOUS frame into a frame 0 with op PREVIOUS, the rule as written restores the previous loop's colour for frame 1, while the corrected rule restores the transparent canvas frame 0 was drawn on |
| `APNGDecoders.APNGDecoder.constructor` | apng/src/main/java/com/github/penfeizhou/animation/apng/decode/APNGDecoder.kt:43 | a new snapshot records dispose op 0, an empty rectangle and no buffer |
| `APNGDecoders.APNGDecoder.Read` | apng/src/main/java/com/github/penfeizhou/animation/apng/decode/APNGDecoder.kt:52-79 | when the 32-bit snapshot capacity of the sampled canvas wraps negative, `ByteBuffer.allocate` raises `IllegalArgumentException` (`BadCapacity`) and the snapshot buffer is kept; otherwise returns `ReadInfo` and allocates a cleared snapshot buffer of that capacity; the recorded op and rectangle stay |
| `APNGDecoders.APNGDecoder.PrepareApngBitmap` | apng/src/main/java/com/github/penfeizhou/animation/apng/decode/APNGDecoder.kt:106-158 | corrected (Findings, row 1: frame 0 always retakes the snapshot): the bitmap is the prepared canvas (disposed, then the frame's rectangle cleared for SOURCE) and the snapshot moves on as `NextSnapShot` says |
| `APNGDecoders.APNGDecoder.RenderFrame` | apng/src/main/java/com/github/penfeizhou/animation/apng/decode/APNGDecoder.kt:82-103 | an empty sampled canvas gives no bitmap and changes nothing; an APNG frame is drawn over its prepared canvas and moves the snapshot on as `NextSnapShot` says; a still frame is drawn over a cleared bitmap, leaving the snapshot; a frame whose pixels fail to decode leaves the frame buffer as it was, and an APNG frame still moves the snapshot on |
| `APNGDecoders.CanvasSide` | apng/src/main/java/com/github/penfeizhou/animation/apng/decode/APNGDecoder.kt:85-86 | a non-negative viewport side divided by the sample size, as the bitmap side |
| `Canvas.SampledRect` | apng/src/main/java/com/github/penfeizhou/animation/apng/decode/APNGDecoder.kt:143-148 | for a frame inside the canvas, each edge of the clip is the frame's edge divided by the sample size (the rectangle `clipRect` gets in both decoders) |
| `Canvas.RestoreRect` | gif/src/main/java/com/github/penfeizhou/animation/gif/decode/GifDecoder.kt:111-121 | clearing a clip region and drawing a saved bitmap into it puts the saved pixels back there and leaves the rest of the canvas alone |
| `WebPParsers.ChunkIds` | awebp/src/main/java/com/github/penfeizhou/animation/webp/decode/ANIMChunk.kt:43-44 | the dispatch constants are `fourCCToInt` of "VP8X", "ANIM", "ANMF", "ALPH", "VP8 ", "VP8L", "ICCP", "XMP " and "EXIF" |
| `WebPParsers.PaddedSize` | awebp/src/main/java/com/github/penfeizhou/animation/webp/decode/AnimationFrame.kt:27 | a declared payload size pads to the next even number, at most one more |
| `WebPParsers.BodyAt` | awebp/src/main/java/com/github/penfeizhou/animation/webp/decode/WebPParser.kt:119-144 | the body kind matches the FourCC exactly, an unknown one is a general chunk; the 24-bit fields lie in their ranges; VP8X reads 10 bytes, ANIM 6, ANMF at least its 16-byte header |
| `WebPParsers.Vp8xBody` | awebp/src/main/java/com/github/penfeizhou/animation/webp/decode/WebPParser.kt:120-121 | VP8X parses iff its 10 bytes remain: the flags byte, then 1-based 24-bit canvas width and height in [1, 2^24] |
| `WebPParsers.AnimBody` | awebp/src/main/java/com/github/penfeizhou/animation/webp/decode/ANIMChunk.kt:25-40 | ANIM parses iff 6 bytes remain: the background colour (LE32) whose bytes stay in B, G, R, A order, then the loop count (LE16) in [0, 65535] |
| `WebPParsers.AnmfHeader` | awebp/src/main/java/com/github/penfeizhou/animation/webp/decode/WebPParser.kt:124-125 | the ANMF header fields at their offsets: X, Y, 1-based width and height, duration and flags |
| `WebPParsers.ChunkAt` | awebp/src/main/java/com/github/penfeizhou/animation/webp/decode/WebPParser.kt:114-146 | a parsed chunk's offset is the position before its FourCC, its payload size is the LE32 read next, and the following chunk starts after the padded payload |
| `WebPParsers.ChunkRestAt` | awebp/src/main/java/com/github/penfeizhou/animation/webp/decode/WebPParser.kt:141-144 | once the header is read the chunk keeps offset, FourCC and size, and ends after its padded payload |
| `WebPParsers.SubChunksFrom` | awebp/src/main/java/com/github/penfeizhou/animation/webp/decode/WebPParser.kt:124-125 | the ANMF loop stops at or after the payload end, or reads nothing when already there |
| `WebPParsers.PrependSubStep` | awebp/src/main/java/com/github/penfeizhou/animation/webp/decode/WebPParser.kt:124-125 | one turn of the ANMF loop, likewise |
| `WebPParsers.TilesCons` | awebp/src/main/java/com/github/penfeizhou/animation/webp/decode/WebPParser.kt:106-110 | a chunk in front of a tiling that starts where it ends is a tiling |
| `WebPParsers.ChunksTile` | awebp/src/main/java/com/github/penfeizhou/animation/webp/decode/WebPParser.kt:106-110 | a successful walk is a list of adjacent well-formed chunks from the position to exactly the limit |
| `WebPParsers.SubChunksTile` | awebp/src/main/java/com/github/penfeizhou/animation/webp/decode/WebPParser.kt:124-125 | a frame's own chunks are adjacent and well formed up to where its loop stopped |
| `WebPParsers.AnmfLayout` | awebp/src/main/java/com/github/penfeizhou/animation/webp/decode/AnimationFrame.kt:26-27 | an ANMF chunk's frame chunks start right after the 16-byte header and tile its payload up to a point between the declared and the padded size |
| `WebPParsers.AnmfBodyLayout` | awebp/src/main/java/com/github/penfeizhou/animation/webp/decode/WebPParser.kt:124-125 | the ANMF body parser reads at least the declared payload, its chunks tiling it |
| `WebPParsers.SignatureGate` | awebp/src/main/java/com/github/penfeizhou/animation/webp/decode/WebPParser.kt:99-105 | the header is accepted exactly when the bytes are "RIFF", any 4, "WEBP"; otherwise `parse` fails with a format error and `isAWebP` is false |
| `WebPParsers.UnknownChunkSkipped` | awebp/src/main/java/com/github/penfeizhou/animation/webp/decode/WebPParser.kt:138-140 | a chunk of an unknown FourCC is a general chunk, never an error of its own: it parses iff its padded size is non-negative and it fits |
| `WebPParsers.IsAWebPFindsVp8x` | awebp/src/main/java/com/github/penfeizhou/animation/webp/decode/WebPParser.kt:72-94 | on a stream that parses, `isAWebP` is the animation flag of the first VP8X chunk, false if there is none |
| `WebPParsers.ScanFindsVp8x` | awebp/src/main/java/com/github/penfeizhou/animation/webp/decode/WebPParser.kt:82-87 | the scan of `isAWebP` agrees with the chunk list `parse` builds |
| `WebPParsers.ReadHeader` | awebp/src/main/java/com/github/penfeizhou/animation/webp/decode/WebPParser.kt:99-105 | match "RIFF", skip 4, match "WEBP", as `HeaderAt` |
| `WebPParsers.ParseBody` | awebp/src/main/java/com/github/penfeizhou/animation/webp/decode/WebPParser.kt:119-144 | the body parser dispatched on the FourCC computes `BodyAt`, with the same stop position and error |
| `WebPParsers.ParseVp8xBody` | awebp/src/main/java/com/github/penfeizhou/animation/webp/decode/WebPParser.kt:120-121 | the VP8X body parser computes `BodyAt` for a VP8X chunk: flags byte, 3 reserved bytes skipped, 1-based width and height, the same stop position and error |
| `WebPParsers.ParseAnimBody` | awebp/src/main/java/com/github/penfeizhou/animation/webp/decode/ANIMChunk.kt:35-38 | `innerParse` computes `BodyAt` for an ANIM chunk: background colour then loop count, the same stop position and error |
| `WebPParsers.ParseAnmfBody` | awebp/src/main/java/com/github/penfeizhou/animation/webp/decode/WebPParser.kt:124-125 | the ANMF body parser computes `BodyAt` for an ANMF chunk: the 16-byte frame header, then sub-chunks up to the end of the declared payload |
| `WebPParsers.ReadAnmfHeader` | awebp/src/main/java/com/github/penfeizhou/animation/webp/decode/WebPParser.kt:124-125 | the 16-byte ANMF frame header succeeds iff 16 bytes remain; its fields are the 24-bit offsets, the 1-based sizes, the duration and the flags byte at their offsets |
| `WebPParsers.ParseSubChunks` | awebp/src/main/java/com/github/penfeizhou/animation/webp/decode/WebPParser.kt:124-125 | the ANMF loop computes `SubChunksFrom` |
| `WebPParsers.ParseChunk` | awebp/src/main/java/com/github/penfeizhou/animation/webp/decode/WebPParser.kt:114-146 | `parseChunk` computes `ChunkAt`: same chunk, same next position, same error |
| `WebPParsers.ParseChunkRest` | awebp/src/main/java/com/github/penfeizhou/animation/webp/decode/WebPParser.kt:141-144 | body, then a skip to the padded end; a body that read past it is an error |
| `WebPParsers.Parse` | awebp/src/main/java/com/github/penfeizhou/animation/webp/decode/WebPParser.kt:96-111 | a format error on a bad header, otherwise every chunk until nothing is available, in stream order, or the first error |
| `WebPParsers.IsAWebP` | awebp/src/main/java/com/github/penfeizhou/animation/webp/decode/WebPParser.kt:71-94 | computes the header check and the chunk scan: false on a bad header or when a chunk fails with an `IOException` (a format or chunk-bound error), the first VP8X's animation flag when one is met, false at the end; any other failure propagates |
| `WebPFrames.FrameOfParsedChunk` | awebp/src/main/java/com/github/penfeizhou/animation/webp/decode/AnimationFrame.kt:19-30 | a frame built from a parsed ANMF chunk takes the chunk's position and 1-based size, a duration that is 100 when the chunk says 0, the blending and disposal bits and "has an ALPH chunk"; its image data starts 16 bytes into the payload, runs to the end of the padded payload, lies inside the stream and begins with the frame's own chunks |
| `WebPFrames.RiffHeaderLayout` | awebp/src/main/java/com/github/penfeizhou/animation/webp/decode/AnimationFrame.kt:40-42 | the RIFF header is 12 bytes: "RIFF", the size read back as written, "WEBP" |
| `WebPFrames.Vp8xPayloadLayout` | awebp/src/main/java/com/github/penfeizhou/animation/webp/decode/AnimationFrame.kt:47-50 | the VP8X payload is 10 bytes: the flags, then width and height that read back 1-based |
| `WebPFrames.Vp8xChunkLayout` | awebp/src/main/java/com/github/penfeizhou/animation/webp/decode/AnimationFrame.kt:45-46 | the VP8X chunk header reads back as the VP8X FourCC and size 10 |
| `WebPFrames.HeaderLayout` | awebp/src/main/java/com/github/penfeizhou/animation/webp/decode/AnimationFrame.kt:36-50 | the 30-byte header: every field at its offset, and whatever follows starts at 30 |
| `WebPFrames.RiffSizeAsWritten` | awebp/src/main/java/com/github/penfeizhou/animation/webp/decode/AnimationFrame.kt:37-41 | as written, the RIFF size field holds the encoded length, never the length less 8 that RFC 9649 section 2.5 asks for: 30 instead of 22 for the smallest frame |
| `WebPFrames.EncodedFrameParses` | awebp/src/main/java/com/github/penfeizhou/animation/webp/decode/AnimationFrame.kt:35-61 | the corrected encoding is a still WebP the container parser reads back: the header check passes, the RIFF size counts what follows the size field, the first chunk is a VP8X of the frame's size with the alpha flag iff the frame has ALPH and no animation flag, and the image data follows verbatim |
| `WebPFrames.HeaderParses` | awebp/src/main/java/com/github/penfeizhou/animation/webp/decode/AnimationFrame.kt:39-50 | whatever follows it, the corrected header passes the RIFF/WEBP check and starts with a VP8X chunk of the frame's flags and size ending at byte 30 |
| `WebPFrames.Vp8xChunkParses` | awebp/src/main/java/com/github/penfeizhou/animation/webp/decode/WebPParser.kt:114-146 | a VP8X chunk written at offset 12 parses back to its flags and sizes and ends at 30 |
| `WebPFrames.PutRiffHeader` | awebp/src/main/java/com/github/penfeizhou/animation/webp/decode/AnimationFrame.kt:40-42 | puts exactly the 12 RIFF header bytes |
| `WebPFrames.PutVp8xChunk` | awebp/src/main/java/com/github/penfeizhou/animation/webp/decode/AnimationFrame.kt:45-50 | puts exactly the 18 bytes of the VP8X chunk |
| `WebPFrames.PutFrameHeader` | awebp/src/main/java/com/github/penfeizhou/animation/webp/decode/AnimationFrame.kt:39-50 | on a writer just reset, puts exactly the 30-byte corrected header |
| `WebPFrames.PutVp8xPayload` | awebp/src/main/java/com/github/penfeizhou/animation/webp/decode/AnimationFrame.kt:47-50 | puts flags 0x10 or 0, 24 reserved zero bits, width and height less one |
| `WebPFrames.Encode` | awebp/src/main/java/com/github/penfeizhou/animation/webp/decode/AnimationFrame.kt:35-61 | corrected (Findings, row 6: the RIFF size is the length less 8): the writer holds the 30-byte header followed by the frame's image data copied from the stream, the returned size is the encoded length and fits the buffer, and the position stays after the header |
| `WebPDecoders.StartRead` | awebp/src/main/java/com/github/penfeizhou/animation/webp/decode/WebPDecoder.kt:50-53 | `read` starts with neither the ANIM nor the VP8X flag set and no frame added |
| `WebPDecoders.FillColor` | awebp/src/main/java/com/github/penfeizhou/animation/webp/decode/WebPDecoder.kt:82-84 | an opaque image fills disposed frames with its background colour, one with alpha keeps the fill paint's colour |
| `WebPDecoders.OneFramePerAnmf` | awebp/src/main/java/com/github/penfeizhou/animation/webp/decode/WebPDecoder.kt:54-69 | the chunk loop adds exactly one frame per ANMF chunk, all of them animation frames, after the frames already there |
| `WebPDecoders.FramesGrow` | awebp/src/main/java/com/github/penfeizhou/animation/webp/decode/WebPDecoder.kt:54-69 | frames are only appended: those read from a prefix of the chunks are a prefix of the result |
| `WebPDecoders.FrameOfAnmf` | awebp/src/main/java/com/github/penfeizhou/animation/webp/decode/WebPDecoder.kt:67 | the ANMF chunk at position i gives the frame that follows those of the chunks before it, so frames are in stream order |
| `WebPDecoders.LastVp8xWins` | awebp/src/main/java/com/github/penfeizhou/animation/webp/decode/WebPDecoder.kt:56-61 | the last VP8X chunk decides the canvas size and the alpha flag |
| `WebPDecoders.NoVp8xKeeps` | awebp/src/main/java/com/github/penfeizhou/animation/webp/decode/WebPDecoder.kt:56-61 | without a VP8X chunk the canvas size and the alpha flag are left as they were |
| `WebPDecoders.LastAnimWins` | awebp/src/main/java/com/github/penfeizhou/animation/webp/decode/WebPDecoder.kt:62-66 | the last ANIM chunk decides the background colour and the loop count |
| `WebPDecoders.NoAnimKeeps` | awebp/src/main/java/com/github/penfeizhou/animation/webp/decode/WebPDecoder.kt:62-66 | without an ANIM chunk the colour, the loop count and the animation flag are left as they were |
| `WebPDecoders.StillImage` | awebp/src/main/java/com/github/penfeizhou/animation/webp/decode/WebPDecoder.kt:70-81 | without ANIM the image gets one still frame after its ANMF frames, sized by the VP8X chunk or else by the decoded bounds, and plays once |
| `WebPDecoders.AnimatedImage` | awebp/src/main/java/com/github/penfeizhou/animation/webp/decode/WebPDecoder.kt:62-81 | with ANIM the frames are the ANMF frames alone and the loop count and colour are the last ANIM chunk's |
| `WebPDecoders.DrawRect` | awebp/src/main/java/com/github/penfeizhou/animation/webp/decode/AnimationFrame.kt:94-101 | the destination rectangle has the decoded bitmap's own size |
| `WebPDecoders.Disposed` | awebp/src/main/java/com/github/penfeizhou/animation/webp/decode/WebPDecoder.kt:101-121 | the canvas a frame is drawn on has the frame buffer's size |
| `WebPDecoders.Drawn` | awebp/src/main/java/com/github/penfeizhou/animation/webp/decode/AnimationFrame.kt:88-106 | a frame's drawing keeps the canvas size |
| `WebPDecoders.Rendered` | awebp/src/main/java/com/github/penfeizhou/animation/webp/decode/WebPDecoder.kt:88-131 | `renderFrame`'s output has the frame buffer's size |
| `WebPDecoders.FirstFrameStartsCleared` | awebp/src/main/java/com/github/penfeizhou/animation/webp/decode/WebPDecoder.kt:101-106 | frame 0 is drawn on a canvas of one colour whatever was shown before: transparent with alpha, the background colour otherwise |
| `WebPDecoders.DisposedToBackground` | awebp/src/main/java/com/github/penfeizhou/animation/webp/decode/WebPDecoder.kt:108-120 | after a disposed animation frame its sampled rectangle holds the fill colour and every other pixel of the output is kept |
| `WebPDecoders.LeftInPlace` | awebp/src/main/java/com/github/penfeizhou/animation/webp/decode/WebPDecoder.kt:108-121 | after a frame that is not disposed, or a still frame, the output is kept as it is |
| `WebPDecoders.NoBlendReplaces` | awebp/src/main/java/com/github/penfeizhou/animation/webp/decode/AnimationFrame.kt:89-102 | a frame that does not blend (`SRC`) replaces its rectangle with its bitmap, transparent pixels included; outside it the canvas is kept |
| `WebPDecoders.BlendGoesOver` | awebp/src/main/java/com/github/penfeizhou/animation/webp/decode/AnimationFrame.kt:89-102 | a frame that blends (`SRC_OVER`) goes over its rectangle; outside it the canvas is kept |
| `WebPDecoders.StillGoesOver` | awebp/src/main/java/com/github/penfeizhou/animation/webp/decode/StillFrame.kt:50-51 | a still frame's bitmap goes over the canvas from the top-left corner |
| `WebPDecoders.FailedDecodeDrawsNothing` | awebp/src/main/java/com/github/penfeizhou/animation/webp/decode/AnimationFrame.kt:103-105 | a frame whose image does not decode leaves the disposed canvas as the output |
| `WebPDecoders.WebPDecoder.constructor` | awebp/src/main/java/com/github/penfeizhou/animation/webp/decode/WebPDecoder.kt:36-40 | a new decoder has no frames, loop count 0, an empty canvas, no alpha and a transparent fill colour |
| `WebPDecoders.WebPDecoder.GetLoopCount` | awebp/src/main/java/com/github/penfeizhou/animation/webp/decode/WebPDecoder.kt:43-45 | returns the loop count the decoder read |
| `WebPDecoders.WebPDecoder.ReadLoop` | awebp/src/main/java/com/github/penfeizhou/animation/webp/decode/WebPDecoder.kt:52-69 | the chunk loop leaves the decoder's fields and its local flags as the fold `ReadChunks` computes them, frames appended |
| `WebPDecoders.WebPDecoder.Read` | awebp/src/main/java/com/github/penfeizhou/animation/webp/decode/WebPDecoder.kt:50-86 | a stream that does not parse fails with the parser's error and changes nothing; otherwise the fields are those of `FinishRead` over the fold, the fill colour follows `FillColor` and the canvas bounds are returned |
| `WebPDecoders.WebPDecoder.RenderFrame` | awebp/src/main/java/com/github/penfeizhou/animation/webp/decode/WebPDecoder.kt:88-131 | nothing happens on an empty canvas, there is no output without a frame buffer, otherwise the output is `Rendered` |
| `BitmapPools.Bitmap.constructor` | frameanimation/src/main/java/com/github/penfeizhou/animation/decode/BitmapPool.kt:20 | a new `ARGB_8888` bitmap has the requested size, 4 bytes per pixel allocated, and is not recycled |
| `BitmapPools.Allocations` | frameanimation/src/main/java/com/github/penfeizhou/animation/decode/BitmapPool.kt:10 | the allocation sizes the reuse test looks at, one per pooled bitmap in pool order, 0 for a recycled bitmap, as Android's `getAllocationByteCount` answers |
| `BitmapPools.FirstFit` | frameanimation/src/main/java/com/github/penfeizhou/animation/decode/BitmapPool.kt:9-10 | the corrected reuse test: the first pooled bitmap whose allocation holds width x height x 4 bytes for a non-empty request, none before it qualifying; `|allocs|` when none does |
| `BitmapPools.ReusedFits` | frameanimation/src/main/java/com/github/penfeizhou/animation/decode/BitmapPool.kt:9-14 | a bitmap the corrected test picks has room for the request, so reconfiguring it succeeds |
| `BitmapPools.FirstFitAsWritten` | frameanimation/src/main/java/com/github/penfeizhou/animation/decode/BitmapPool.kt:9-10 | the test as written: the first allocation of at least width x height, bytes compared with pixels |
| `BitmapPools.AsWrittenReusesTooSmall` | frameanimation/src/main/java/com/github/penfeizhou/animation/decode/BitmapPool.kt:9-10 | as written, a 4-byte bitmap is reused for a 2 x 2 request needing 16 bytes, and an empty 0 x 5 request gets a pooled bitmap instead of `null` |
| `BitmapPools.BitmapPool.constructor` | frameanimation/src/main/java/com/github/penfeizhou/animation/decode/BitmapPool.kt:6 | a new pool is empty |
| `BitmapPools.BitmapPool.Obtain` | frameanimation/src/main/java/com/github/penfeizhou/animation/decode/BitmapPool.kt:8-32 | corrected (Findings, row 3: a bitmap is reused only when it holds width x height x 4 bytes, and an empty request gets none): the first fitting bitmap leaves the pool, keeping the others' order, resized to the request; a reused bitmap is never a recycled one; with none the pool is unchanged and the result is a fresh bitmap of the requested size, or `null` for an empty request; no other bitmap changes |
| `BitmapPools.BitmapPool.Recycle` | frameanimation/src/main/java/com/github/penfeizhou/animation/decode/BitmapPool.kt:34-40 | `null` and a bitmap already pooled leave the pool as it is, any other bitmap joins it at the end |
| `BitmapPools.BitmapPool.Clear` | frameanimation/src/main/java/com/github/penfeizhou/animation/decode/BitmapPool.kt:42-50 | every pooled bitmap is recycled, the bitmaps stay in the pool, and its memory size drops to 0 |
| `BitmapPools.RecycledNeverReused` | frameanimation/src/main/java/com/github/penfeizhou/animation/decode/BitmapPool.kt:9-10 | the first fitting bitmap is never a recycled one, since a recycled bitmap reports 0 bytes and a fitting one needs a positive size |
| `BitmapPools.BitmapPool.GetMemorySize` | frameanimation/src/main/java/com/github/penfeizhou/animation/decode/BitmapPool.kt:52-54 | returns the bytes of the pooled bitmaps that are not recycled |
| `BitmapPools.NoLiveMemory` | frameanimation/src/main/java/com/github/penfeizhou/animation/decode/BitmapPool.kt:53 | a pool of recycled bitmaps holds no memory |
| `BitmapPools.MemorySizeAppend` | frameanimation/src/main/java/com/github/penfeizhou/animation/decode/BitmapPool.kt:37 | recycling a live bitmap into the pool adds its allocation to the memory size, a recycled one adds nothing |
| `GifBlocks.Pow2` | gif/src/main/java/com/github/penfeizhou/animation/gif/decode/LogicalScreenDescriptor.kt:199 | the table sizes `2 shl n` are powers of two, at least 1 |
| `GifBlocks.ScreenDescriptor.ColorResolution` | gif/src/main/java/com/github/penfeizhou/animation/gif/decode/LogicalScreenDescriptor.kt:190-192 | bits 4-6 of the packed byte plus one, in [1, 8] |
| `GifBlocks.ScreenDescriptor.GColorTableSize` | gif/src/main/java/com/github/penfeizhou/animation/gif/decode/LogicalScreenDescriptor.kt:198-200 | `2 shl (flag and 7)`: 2 to 256 entries |
| `GifBlocks.LocalColorTableSize` | gif/src/main/java/com/github/penfeizhou/animation/gif/decode/ImageDescriptor.kt:187-189 | the corrected local table size from the 3-bit field of GIF89a section 20: 2 to 256 entries |
| `GifBlocks.LocalColorTableSizeAsWritten` | gif/src/main/java/com/github/penfeizhou/animation/gif/decode/ImageDescriptor.kt:187-189 | the size as written, `2 shl (flag and 0xf)`, at least 2 |
| `GifBlocks.LocalTableSizeDiverges` | gif/src/main/java/com/github/penfeizhou/animation/gif/decode/ImageDescriptor.kt:187-189 | both sizes agree while the reserved bit 3 is clear; with it set the source's table is 256 times too large, 512 entries for the packed byte 0x88 instead of 2 |
| `GifBlocks.Pow2Shift` | gif/src/main/java/com/github/penfeizhou/animation/gif/decode/ImageDescriptor.kt:188 | shifting by k more multiplies the size by 2^k |
| `GifBlocks.GraphicControl.DisposalMethod` | gif/src/main/java/com/github/penfeizhou/animation/gif/decode/GraphicControlExtension.kt:46-48 | bits 2-4 of the packed byte, in [0, 7] |
| `GifBlocks.ScreenDescriptorAt` | gif/src/main/java/com/github/penfeizhou/animation/gif/decode/LogicalScreenDescriptor.kt:174-180 | the descriptor parses iff 7 bytes remain, with 16-bit width and height and the next three bytes; otherwise an underflow |
| `GifBlocks.ColorTableAt` | gif/src/main/java/com/github/penfeizhou/animation/gif/decode/ImageDescriptor.kt:163-166 | a table of n colours parses iff 3n bytes remain; colour i packs the i-th byte triple |
| `GifBlocks.SubBlocksEnd` | gif/src/main/java/com/github/penfeizhou/animation/gif/decode/ImageDescriptor.kt:169-172 | the sub-block walk ends just after a zero size byte, inside the stream, or fails with an underflow or a bad skip |
| `GifBlocks.ImageDescriptorAt` | gif/src/main/java/com/github/penfeizhou/animation/gif/decode/ImageDescriptor.kt:157-173 | corrected (Findings, row 5: the table size takes 3 bits): the fields are the 16-bit values and the packed byte at their offsets; a local table is present iff bit 7 is set and has `LocalColorTableSize` entries; the data offset lies after the code size byte, and the descriptor ends where the image data's sub-blocks end |
| `GifBlocks.GraphicControlAt` | gif/src/main/java/com/github/penfeizhou/animation/gif/decode/GraphicControlExtension.kt:23-31 | the block parses iff 6 bytes remain and the terminator is 0; a non-zero terminator is a format error, too few bytes an underflow |
| `GifBlocks.IdentifierChar` | gif/src/main/java/com/github/penfeizhou/animation/gif/decode/ApplicationExtension.kt:19 | a byte below 0x80 is its own character, one from 0x80 on sign-extends to 0xff80 and above |
| `GifBlocks.IdentifierAt` | gif/src/main/java/com/github/penfeizhou/animation/gif/decode/ApplicationExtension.kt:17-21 | the identifier has one character per byte read |
| `GifBlocks.ApplicationExtensionAt` | gif/src/main/java/com/github/penfeizhou/animation/gif/decode/ApplicationExtension.kt:15-37 | a parsed extension ends inside the stream after at least one byte |
| `GifBlocks.AfterIdentifier` | gif/src/main/java/com/github/penfeizhou/animation/gif/decode/ApplicationExtension.kt:22-36 | after the identifier a parsed extension keeps it and ends inside the stream, past the current position |
| `GifBlocks.NetscapeLoopCount` | gif/src/main/java/com/github/penfeizhou/animation/gif/decode/ApplicationExtension.kt:22-26 | the NETSCAPE2.0 block with sub-block `03 01 lo hi 00` yields the loop count lo + 256 hi and ends after the terminator |
| `GifBlocks.ReceiveScreenDescriptor` | gif/src/main/java/com/github/penfeizhou/animation/gif/decode/LogicalScreenDescriptor.kt:174-180 | computes `ScreenDescriptorAt` and moves past it |
| `GifBlocks.ReceiveColorTable` | gif/src/main/java/com/github/penfeizhou/animation/gif/decode/ImageDescriptor.kt:164-165 | reads n colours, computing `ColorTableAt` |
| `GifBlocks.SkipSubBlocks` | gif/src/main/java/com/github/penfeizhou/animation/gif/decode/ImageDescriptor.kt:169-172 | the skip loop ends where `SubBlocksEnd` says, or with its error |
| `GifBlocks.ReceiveImageDescriptor` | gif/src/main/java/com/github/penfeizhou/animation/gif/decode/ImageDescriptor.kt:157-173 | corrected (Findings, row 5: the table size takes 3 bits): computes `ImageDescriptorAt`, with the same error |
| `GifBlocks.ReadPlacement` | gif/src/main/java/com/github/penfeizhou/animation/gif/decode/ImageDescriptor.kt:158-162 | left, top, width and height (LE16) and the packed byte are read iff 9 bytes remain; the position moves by 9 |
| `GifBlocks.ReceiveGraphicControl` | gif/src/main/java/com/github/penfeizhou/animation/gif/decode/GraphicControlExtension.kt:23-31 | computes `GraphicControlAt`, with the same error |
| `GifBlocks.SkipDataSubBlocks` | gif/src/main/java/com/github/penfeizhou/animation/gif/decode/ApplicationExtension.kt:27-35 | the `do ... while (!isTerminal)` loop ends where `SubBlocksEnd` says, or with its error |
| `GifBlocks.ReceiveApplicationExtension` | gif/src/main/java/com/github/penfeizhou/animation/gif/decode/ApplicationExtension.kt:15-37 | succeeds exactly when `ApplicationExtensionAt` does, with the same block and position, and fails with its error |
| `GifBlocks.ReadIdentifier` | gif/src/main/java/com/github/penfeizhou/animation/gif/decode/ApplicationExtension.kt:17-21 | the identifier loop succeeds iff `n` bytes remain and yields each byte as a character, in order |
| `GifBlocks.ReceiveLoopBlock` | gif/src/main/java/com/github/penfeizhou/animation/gif/decode/ApplicationExtension.kt:22-36 | succeeds exactly when `AfterIdentifier` does, with the same block and position, and fails with its error: the NETSCAPE2.0 loop count when the sub-block is `03 01`, then the sub-blocks skipped |
| `GifDecoders.NewGifFrame` | gif/src/main/java/com/github/penfeizhou/animation/gif/decode/GifFrame.kt:29-55 | a frame takes its place and size, interlace flag, code size and data offset from the descriptor, the local table when the descriptor has one and the global one otherwise; without a control extension it is kept (disposal 0) and its duration is the generic default |
| `GifDecoders.GifFrameTiming` | gif/src/main/java/com/github/penfeizhou/animation/gif/decode/GifFrame.kt:30-38 | with a control extension the duration is 10 times the delay, 100 ms for a delay of 0, the frame is transparent exactly when the extension's flag is set, with its index, and the disposal method is the extension's |
| `GifDecoders.GifFrameWithoutControl` | gif/src/main/java/com/github/penfeizhou/animation/gif/decode/GifFrame.kt:39-42 | without a control extension the frame is opaque and kept |
| `GifDecoders.ReadStep` | gif/src/main/java/com/github/penfeizhou/animation/gif/decode/GifDecoder.kt:53-70 | one block: a control extension replaces the one in force, a colour table the global one, an image descriptor appends one frame built with those |
| `GifDecoders.LastControlInForce` | gif/src/main/java/com/github/penfeizhou/animation/gif/decode/GifDecoder.kt:62-66 | the control extension in force after some blocks is the last of them, and there is none only if there was none |
| `GifDecoders.FramesGrow` | gif/src/main/java/com/github/penfeizhou/animation/gif/decode/GifDecoder.kt:64-66 | frames are only appended, so those of a prefix of the blocks are a prefix of the frames |
| `GifDecoders.FrameOfDescriptor` | gif/src/main/java/com/github/penfeizhou/animation/gif/decode/GifDecoder.kt:64-66 | the descriptor at position i gives the frame after those read before it, built with the table and extension in force there |
| `GifDecoders.BackgroundIndexFromScreen` | gif/src/main/java/com/github/penfeizhou/animation/gif/decode/GifDecoder.kt:54-59 | the background index is -1 or the index of a screen descriptor that has a global table, below 256 |
| `GifDecoders.LoopCountFromNetscape` | gif/src/main/java/com/github/penfeizhou/animation/gif/decode/GifDecoder.kt:67-69 | only a NETSCAPE2.0 application extension sets the loop count |
| `GifDecoders.Rgb` | gif/src/main/java/com/github/penfeizhou/animation/gif/decode/GifDecoder.kt:75 | `Color.rgb` gives an opaque colour with red, green and blue in their bytes |
| `GifDecoders.TableColorOfBytes` | gif/src/main/java/com/github/penfeizhou/animation/gif/decode/GifDecoder.kt:73-76 | a table entry unpacks back to the opaque colour of its three bytes, never transparent |
| `GifDecoders.BackgroundOf` | gif/src/main/java/com/github/penfeizhou/animation/gif/decode/GifDecoder.kt:92-95 | a frame with a transparent colour has nothing behind it, any other the background colour |
| `GifDecoders.Disposed` | gif/src/main/java/com/github/penfeizhou/animation/gif/decode/GifDecoder.kt:96-123 | the canvas a frame is drawn on has the frame buffer's size |
| `GifDecoders.NextSnapshot` | gif/src/main/java/com/github/penfeizhou/animation/gif/decode/GifDecoder.kt:124-130 | the corrected snapshot keeps the canvas size |
| `GifDecoders.Rendered` | gif/src/main/java/com/github/penfeizhou/animation/gif/decode/GifDecoder.kt:82-139 | `renderFrame`'s output has the frame buffer's size |
| `GifDecoders.FirstFrameStartsFromBackground` | gif/src/main/java/com/github/penfeizhou/animation/gif/decode/GifDecoder.kt:96-97 | frame 0 is drawn on a canvas of its background alone, whatever was shown before |
| `GifDecoders.LeftInPlace` | gif/src/main/java/com/github/penfeizhou/animation/gif/decode/GifDecoder.kt:107-109 | after disposal methods 0, 1 and 4-7 the next frame starts from the output as it is |
| `GifDecoders.RestoredToBackground` | gif/src/main/java/com/github/penfeizhou/animation/gif/decode/GifDecoder.kt:110 | disposal 2 clears the previous frame's rectangle and keeps the rest of the output |
| `GifDecoders.RestoredToPrevious` | gif/src/main/java/com/github/penfeizhou/animation/gif/decode/GifDecoder.kt:111-121 | with the corrected snapshot, disposal 3 puts back, inside the frame's rectangle, the canvas as it was before the frame was drawn, and keeps the frame's output outside it |
| `GifDecoders.OpaqueBackgroundCovers` | gif/src/main/java/com/github/penfeizhou/animation/gif/decode/GifDecoder.kt:134 | with an opaque background behind an opaque frame no pixel of the output is transparent |
| `GifDecoders.NextSnapshotAsWritten` | gif/src/main/java/com/github/penfeizhou/animation/gif/decode/GifDecoder.kt:96-130 | as written the snapshot is the previous output, before its disposal, taken only when a disposal-3 frame other than frame 0 follows one whose disposal is not 3 |
| `GifDecoders.AsWrittenRestoresDisposedFrame` | gif/src/main/java/com/github/penfeizhou/animation/gif/decode/GifDecoder.kt:124-130 | on a 1 x 1 canvas where frame 0 (disposal 2) paints a colour and frame 1 (disposal 3) paints nothing, frame 2 starts from frame 0's colour with the source's snapshot and from the cleared canvas with the corrected one |
| `GifDecoders.AsWrittenKeepsStaleSnapshot` | gif/src/main/java/com/github/penfeizhou/animation/gif/decode/GifDecoder.kt:96-130 | on a 1 x 1 canvas with disposals 3, 1, 1, 3, the last frame saves the colour frame 2 left; frame 0 of the next loop takes no snapshot, so frame 1 starts from that stale colour with the source's rule and from the cleared canvas with the corrected one |
| `GifDecoders.GifDecoder.constructor` | gif/src/main/java/com/github/penfeizhou/animation/gif/decode/GifDecoder.kt:31-43 | a new decoder has no frames, loop count 0, background 0 and no snapshot buffer |
| `GifDecoders.GifDecoder.GetDesiredSample` | gif/src/main/java/com/github/penfeizhou/animation/gif/decode/GifDecoder.kt:80 | GIF images are never scaled down: the sample is 1; `FrameSeqDecoders.FrameSeqDecoder.GetDesiredSample` follows this override for a decoder built with `fixedSample` |
| `GifDecoders.GifDecoder.Release` | gif/src/main/java/com/github/penfeizhou/animation/gif/decode/GifDecoder.kt:41-43 | the snapshot buffer is dropped, nothing else changes |
| `GifDecoders.GifDecoder.Read` | gif/src/main/java/com/github/penfeizhou/animation/gif/decode/GifDecoder.kt:46-78 | the blocks are folded by `ReadBlocks`: frames appended and the NETSCAPE2.0 loop count when present; when the 32-bit snapshot capacity of the sampled canvas wraps negative, `ByteBuffer.allocate` raises `IllegalArgumentException` (`BadCapacity`) and the snapshot, background and bounds are kept; otherwise a cleared snapshot of that capacity, the background from the global table when the index lies in it, and the canvas bounds returned |
| `GifDecoders.GifDecoder.RenderFrame` | gif/src/main/java/com/github/penfeizhou/animation/gif/decode/GifDecoder.kt:82-139 | corrected (Findings, row 2: every disposal-3 frame, frame 0 included, saves the canvas it is drawn on): nothing without a sampled canvas or a frame buffer; otherwise the output is `Rendered` and the snapshot becomes `NextSnapshot` |
| `FrameSeqDecoders.CanStepIffStepsLeft` | frameanimation/src/main/java/com/github/penfeizhou/animation/decode/BaseFrameSeqDecoder.kt:127-143 | with a positive loop count, `canStep` holds exactly while frames remain to be shown |
| `FrameSeqDecoders.StepShowsOneFrame` | frameanimation/src/main/java/com/github/penfeizhou/animation/decode/BaseFrameSeqDecoder.kt:150-155 | a step keeps the cursor on a frame and leaves one frame fewer to show |
| `FrameSeqDecoders.StepsUntilFinished` | frameanimation/src/main/java/com/github/penfeizhou/animation/decode/BaseFrameSeqDecoder.kt:127-155 | `canStep` holds for exactly as many steps as frames remain, and fails right after them |
| `FrameSeqDecoders.PlaysEveryFrameOfEveryLoop` | frameanimation/src/main/java/com/github/penfeizhou/animation/decode/BaseFrameSeqDecoder.kt:55-56 | from a reset cursor, a loop count of k plays n x k frames and then stops |
| `FrameSeqDecoders.InfiniteLoopNeverStops` | frameanimation/src/main/java/com/github/penfeizhou/animation/decode/BaseFrameSeqDecoder.kt:131-134 | with a loop count of 0 or less playback never ends |
| `FrameSeqDecoders.CapacityWraps` | frameanimation/src/main/java/com/github/penfeizhou/animation/decode/BaseFrameSeqDecoder.kt:297 | for a viewport in range, the 32-bit capacity is negative exactly when (sampled pixels + 1) x 4 passes `Int.MAX_VALUE`, and otherwise equals that product |
| `FrameSeqDecoders.SteppedBuffer` | frameanimation/src/main/java/com/github/penfeizhou/animation/decode/BaseFrameSeqDecoder.kt:150-161 | the buffer a `step` leaves keeps its capacity: a render only moves its position |
| `FrameSeqDecoders.RenderEndsAfterCanvas` | gif/src/main/java/com/github/penfeizhou/animation/gif/decode/GifDecoder.kt:136-137 | in a buffer allocated for the canvas, a render rewinds and copies the sampled canvas into it, so the position ends right after those pixels whatever it was (likewise APNGDecoder.kt:97-98 and WebPDecoder.kt:128-129) |
| `FrameSeqDecoders.AsWrittenCopyFails` | frameanimation/src/main/java/com/github/penfeizhou/animation/decode/FrameSeqDecoder2.kt:79-86 | as written, at sample size 1 and with more than one pixel, the copy after a render finds only the 4 spare bytes left and raises, while the same copy after a rewind fits |
| `FrameSeqDecoders.RewoundCopyFits` | frameanimation/src/main/java/com/github/penfeizhou/animation/decode/FrameSeqDecoder2.kt:79-86 | corrected (Findings, row 7): after a rewind, a bitmap of the sampled viewport always fits a buffer allocated for the image, whatever the position was |
| `FrameSeqDecoders.LargeViewportWraps` | frameanimation/src/main/java/com/github/penfeizhou/animation/decode/BaseFrameSeqDecoder.kt:297-298 | a 30000 x 30000 viewport at sample size 1 is in range, yet its capacity wraps to a negative `Int`, which `ByteBuffer.allocate` refuses |
| `FrameSeqDecoders.BufferHoldsCanvas` | frameanimation/src/main/java/com/github/penfeizhou/animation/decode/BaseFrameSeqDecoder.kt:297 | a capacity that does not wrap holds every pixel of the sampled canvas, 4 bytes each, and one spare pixel |
| `FrameSeqDecoders.SampleForRatio` | frameanimation/src/main/java/com/github/penfeizhou/animation/decode/FrameSeqDecoder2.kt:50-53 | the doubling loop ends at the largest power of two not above the ratio, or 1 below 2, which is `SampleOf(ratio)` |
| `FrameSeqDecoders.SampleOf` | frameanimation/src/main/java/com/github/penfeizhou/animation/decode/FrameSeqDecoder2.kt:50-53 | the sample computed without a loop, by halving the ratio: a power of two, 1 or at most the ratio, and more than half the ratio |
| `FrameSeqDecoders.SampleIsUnique` | frameanimation/src/main/java/com/github/penfeizhou/animation/decode/FrameSeqDecoder2.kt:50-53 | only one power of two meets that bound, so the sample is determined by the ratio |
| `FrameSeqDecoders.PowersOfTwoDouble` | frameanimation/src/main/java/com/github/penfeizhou/animation/decode/FrameSeqDecoder2.kt:50-53 | of two different powers of two the larger is at least twice the smaller |
| `FrameSeqDecoders.FrameLoopNeverEndsPastLastFrame` | frameanimation/src/main/java/com/github/penfeizhou/animation/decode/FrameSeqDecoder2.kt:71-78 | as written, for an image that loops forever and an index past its last frame, the loop of `getFrameBitmap` goes on after any number of steps |
| `FrameSeqDecoders.StepsStayInRange` | frameanimation/src/main/java/com/github/penfeizhou/animation/decode/BaseFrameSeqDecoder.kt:150-155 | any number of steps keeps the cursor within the frames |
| `FrameSeqDecoders.FrameSeqDecoder.constructor` | frameanimation/src/main/java/com/github/penfeizhou/animation/decode/BaseFrameSeqDecoder.kt:32-75 | a new decoder is IDLE and paused, at frame -1 of play 0, not finished, with no loop limit, no image, sample size 1 and an empty pool; `fixedSample` marks a decoder whose `getDesiredSample` is overridden to 1, as `GifDecoder` does at gif/src/main/java/com/github/penfeizhou/animation/gif/decode/GifDecoder.kt:80 |
| `FrameSeqDecoders.FrameSeqDecoder.CanStep` | frameanimation/src/main/java/com/github/penfeizhou/animation/decode/BaseFrameSeqDecoder.kt:127-143 | returns `canStep`'s answer and marks the decoder finished exactly when every play of a finite loop count is done; nothing else changes |
| `FrameSeqDecoders.FrameSeqDecoder.Step` | frameanimation/src/main/java/com/github/penfeizhou/animation/decode/BaseFrameSeqDecoder.kt:150-161 | moves the cursor one frame on, wrapping to frame 0 of the next play, and returns that frame's duration, or 0 without a frame, buffer or image; the frame is rendered into the buffer as `SteppedBuffer` says |
| `FrameSeqDecoders.FrameSeqDecoder.Start` | frameanimation/src/main/java/com/github/penfeizhou/animation/decode/BaseFrameSeqDecoder.kt:163-179 | nothing for the `EMPTY` image or when running, otherwise INITIALIZING |
| `FrameSeqDecoders.FrameSeqDecoder.Stop` | frameanimation/src/main/java/com/github/penfeizhou/animation/decode/BaseFrameSeqDecoder.kt:220-236 | nothing for the `EMPTY` image or when IDLE or FINISHING, otherwise FINISHING |
| `FrameSeqDecoders.FrameSeqDecoder.InitCanvasBounds` | frameanimation/src/main/java/com/github/penfeizhou/animation/decode/BaseFrameSeqDecoder.kt:294-299 | a successful read installs the image; a buffer of the sampled capacity follows, large enough for the sampled canvas; a failed read changes nothing and is raised; a capacity that wraps negative leaves the image installed and the old buffer, and raises `IllegalArgumentException`; a new buffer starts at position 0 |
| `FrameSeqDecoders.FrameSeqDecoder.GetBounds` | frameanimation/src/main/java/com/github/penfeizhou/animation/decode/BaseFrameSeqDecoder.kt:88-111 | an image not read is read first: an `IOException` makes it `EMPTY`, any other exception gets through and leaves it as `initCanvasBounds` did; the answer is the viewport, 0 x 0 for `EMPTY` |
| `FrameSeqDecoders.FrameSeqDecoder.GetDesiredSample` | frameanimation/src/main/java/com/github/penfeizhou/animation/decode/FrameSeqDecoder2.kt:41-55 | 1 for a decoder with `fixedSample` (the GIF override) or when a desired side is 0, with nothing read; otherwise the largest power of two not above the smaller of the two truncated ratios, which is `DesiredSample` of the viewport; the image is left as `getBounds` leaves it (`BoundsSlot`), and an exception from the bounds query gets through |
| `FrameSeqDecoders.FrameSeqDecoder.InnerStart` | frameanimation/src/main/java/com/github/penfeizhou/animation/decode/BaseFrameSeqDecoder.kt:182-212 | unpaused, reading the image if it has no frames; an exception other than `IOException` from that read gets through, leaving the cursor and `finished`; otherwise RUNNING and, unless `finished` is set for a finite loop count (then nothing else changes), the cursor goes before frame 0 and one render runs. That render steps onto frame 0 and renders it into the buffer, or stops the decoder down to IDLE with image, buffer and pool released, and `finished` becomes set exactly when it stops an image with frames and a positive loop count |
| `FrameSeqDecoders.FrameSeqDecoder.StartPlayback` | frameanimation/src/main/java/com/github/penfeizhou/animation/decode/BaseFrameSeqDecoder.kt:199-211 | the part of `innerStart` after the read, as the `InnerStart` row describes it, in terms of the image, buffer, cursor and `finished` it starts with |
| `FrameSeqDecoders.FrameSeqDecoder.RenderTask` | frameanimation/src/main/java/com/github/penfeizhou/animation/decode/BaseFrameSeqDecoder.kt:328-353 | nothing while paused; when `canStep` fails, `stop` runs and, since the task runs on the worker thread, `innerStop` with it: IDLE with image, buffer and pool released, unless `stop` had nothing to do; otherwise one step and the next run after the frame's duration less the step's cost, never below 0; `finished` is set exactly when an unpaused tick finds `canStep` failing on a running decoder with frames and a positive loop count, and kept otherwise |
| `FrameSeqDecoders.FrameSeqDecoder.InnerStop` | frameanimation/src/main/java/com/github/penfeizhou/animation/decode/BaseFrameSeqDecoder.kt:239-256 | the image and the buffer are dropped, every pooled bitmap is recycled, and the decoder is IDLE |
| `FrameSeqDecoders.FrameSeqDecoder.Pause` | frameanimation/src/main/java/com/github/penfeizhou/animation/decode/BaseFrameSeqDecoder.kt:267-270 | paused, nothing else changes |
| `FrameSeqDecoders.FrameSeqDecoder.Resume` | frameanimation/src/main/java/com/github/penfeizhou/animation/decode/BaseFrameSeqDecoder.kt:261-265 | unpaused, nothing else changes |
| `FrameSeqDecoders.FrameSeqDecoder.Reset` | frameanimation/src/main/java/com/github/penfeizhou/animation/decode/BaseFrameSeqDecoder.kt:272-276 | play 0, before frame 0, not finished |
| `FrameSeqDecoders.FrameSeqDecoder.SetLoopLimit` | frameanimation/src/main/java/com/github/penfeizhou/animation/decode/BaseFrameSeqDecoder.kt:309-311 | the loop limit is set and overrides the image's loop count |
| `FrameSeqDecoders.FrameSeqDecoder.GetMemorySize` | frameanimation/src/main/java/com/github/penfeizhou/animation/decode/BaseFrameSeqDecoder.kt:304-307 | the live pooled bytes plus the frame buffer's capacity, wherever its position |
| `FrameSeqDecoders.FrameSeqDecoder.SetDesiredSize` | frameanimation/src/main/java/com/github/penfeizhou/animation/decode/FrameSeqDecoder2.kt:18-39 | the sample is what `GetDesiredSample` answers: 1 for a decoder with `fixedSample`, without reading the bounds, else `DesiredSample` of the viewport after `getBounds`; false, and nothing but that bounds read changes, when it equals the sample size; otherwise true, with the work posted to the worker thread returned as a `Resize` of that sample and of whether the decoder was running; an exception other than `IOException` from the bounds read gets through and posts nothing |
| `FrameSeqDecoders.FrameSeqDecoder.Resample` | frameanimation/src/main/java/com/github/penfeizhou/animation/decode/FrameSeqDecoder2.kt:25-36 | the posted work: the decoder is stopped, takes the new sample size and is re-read, with an `IOException` ignored. An exception other than `IOException` gets through and leaves it IDLE without a frame buffer; the image stays installed when the read itself succeeded and only the allocation failed. A decoder that was not running stays IDLE with the image and a new buffer at position 0. One that was running is started again as `InnerStart` says from the stopped state: with `finished` set and a finite loop count it is RUNNING and nothing is rendered; otherwise the cursor goes before frame 0 of the same play, and it either steps onto frame 0 and renders it or is stopped again, with `finished` set exactly as `InnerStart` sets it. In every case that is not restarted, the cursor, `paused` and `finished` are kept |
| `FrameSeqDecoders.FrameSeqDecoder.GetFrameBitmap` | frameanimation/src/main/java/com/github/penfeizhou/animation/decode/FrameSeqDecoder2.kt:58-89 | corrected (Findings, rows 4 and 7: the loop stops when the index cannot be reached, and the buffer is rewound before the copy): null and nothing else changes unless IDLE; otherwise RUNNING and unpaused, and a failed first read or allocation is raised, leaving the cursor and `finished`; `finished` becomes set exactly when the loop ends on a failing `canStep` of an image with frames and a positive loop count, always so for an index at or past the frame count; an image that loops forever, asked for an index past its last frame, gets null and is stopped; after the loop, null without a frame buffer, still RUNNING; an empty sampled viewport raises `IllegalArgumentException` and a buffer too small for the bitmap raises, both leaving it RUNNING; otherwise the cursor stops at the index or where `canStep` fails, a bitmap of the sampled viewport is returned and the decoder is stopped; every error leaves it RUNNING |
| `FrameSeqDecoders.FrameSeqDecoder.StepTo` | frameanimation/src/main/java/com/github/penfeizhou/animation/decode/FrameSeqDecoder2.kt:71-78 | the loop ends with the cursor at the index or with `canStep` false, in every case where it ends; the buffer keeps its capacity; `finished` becomes set exactly when the loop ends on a failing `canStep` of an image with frames and a positive loop count, which is always so for an index at or past the frame count |
| `FrameSeqDecoders.FrameSeqDecoder.CopyFrameBitmap` | frameanimation/src/main/java/com/github/penfeizhou/animation/decode/FrameSeqDecoder2.kt:71-88 | the part of `getFrameBitmap` after the read, as the `GetFrameBitmap` row describes it, in terms of the image, buffer and `finished` it starts with; `paused` is kept |

## Left out

- Threading is not modelled: worker executors, handlers, `ensureWorkerExecute`, the park/unpark in `getBounds` and the `AtomicBoolean` paused flag. Operations run one after another, and work the source posts to the worker thread is a separate method call (`Resample` for the block `setDesiredSize` posts). Where the source already runs on the worker thread, `ensureWorkerExecute` runs the work at once, and so does the model: the `stop` inside `renderTask` runs `innerStop` directly.
- Android drawing and pixel decoding are not modelled: Canvas, PorterDuff, `BitmapFactory`, `Bitmap.compress`, the native LZW in `GifFrame.uncompressLZW` and `inBitmap` reuse. A decoded frame is a parameter (`Option<Image>`, `None` when decoding fails). A blended pixel is the abstract value `Composite(src, dst)`, not a colour.
- CRC-32 is an uninterpreted function parameter (`Crc32`). Its arithmetic is not modelled.
- The float destination rectangle in `AnimationFrame.draw` (awebp AnimationFrame.kt:98-101) and the float disposal rectangle in `WebPDecoder` (WebPDecoder.kt:113-119) use integer truncating division of offsets and sizes by the sample size. Float rounding is not modelled.
- The bounds that `BitmapFactory` reports for a still WebP are parameters (`probeWidth`, `probeHeight`). A still frame whose bitmap fails to decode draws nothing in the model. The source would dereference `null` at that point.
- Viewports are limited to sides from 0 up to, but not including, 2^15 (`FrameSeqDecoders.MAX_SIDE`, checked by `FrameSeqDecoders.ViewportInRange`). A negative side is not modelled. The upper bound keeps every square of a sample size within a 32-bit `Int`.
- Writers require enough room for every put and skip. The source throws `BufferOverflowException` instead. Every encoder in the model is proved never to hit that case.
- The `IOException` that `encode` swallows while re-encoding a frame is not modelled: the in-memory writer never throws one.
- The `size()` accessors are not modelled: `LogicalScreenDescriptor.size() = 7`, `GraphicControlExtension.size() = blockSize + 1` and the like. They only report a block's length to a caller outside the core.
- `BitmapPool` keeps its bitmaps in a `MutableSet`, whose iteration order is unspecified. The model keeps a sequence, so `firstOrNull` picks the first fitting bitmap in insertion order. `eraseColor(0)` is not modelled, because pooled pixels are not part of the model.
- GifDecoders.NewGifFrame: a frame without a graphic control extension has duration `None`. The default that `Frame.kt` supplies is not shown, so its value is not modelled.
- Listeners (`onStart`, `onRender`, `onEnd`) are not modelled. Only the state transitions around them are.
- `PlaintTextExtension` reads and discards its fields, so it is treated like any skipped extension.
- `ANMFChunk`, `VP8XChunk`, `BaseChunk` and `ALPHChunk` are not part of this model. Their chunk bodies are read as RFC 9649 (WebP container specification), sections 2.7.1.1 to 2.7.1.3, lays them out.
- `GifParser`, `ColorTable` and `DataSubBlock` are not part of this model. The block sequence, colour tables and data sub-blocks follow sections 15 and 17 to 27 of the GIF89a specification.
- `Frame.kt` is not part of this model. Its fields appear in each format's frame datatype.
- APNG `Chunk.parse` and its per-type body parsers are not part of this model. A chunk is read as its length, four-character code and body, followed by its CRC. A body that reads more than the length is a format error, and any rest of the body is skipped.
- APNG reading uses one revision of the parser API and `GifDecoder.read` another: a list of frame data and a block list respectively. Each is modelled by its own file's logic over the parsed list.
- APNGDecoders.APNGDecoder.PrepareApngBitmap: follows the corrected snapshot rule of the first Findings row, so it does not reproduce the stale snapshot the source restores after a loop.
- GifDecoders.GifDecoder.RenderFrame: follows the corrected snapshot rule of the second Findings row (every disposal-3 frame saves the canvas it is drawn on), so it does not reproduce the source's snapshot of the undisposed frame buffer, nor its skipping of frame 0 and of frames after a disposal-3 frame.
- BitmapPools.BitmapPool.Obtain: follows the corrected reuse test of the third Findings row, so it does not reproduce the source's reuse of a bitmap too small for the request, nor a bitmap for an empty request.
- GifBlocks.ImageDescriptorAt: reads the local table size from the 3 bits of the fifth Findings row, so a packed byte with bit 3 set does not give the source's larger table.
- GifBlocks.ReceiveImageDescriptor: the same 3-bit table size as `GifBlocks.ImageDescriptorAt`.
- WebPFrames.Encode: writes the RIFF size of the sixth Findings row (the length less 8), not the source's whole length.
- FrameSeqDecoders.FrameSeqDecoder.GetFrameBitmap: follows the corrections of the fourth and seventh Findings rows. It does not reproduce the source's endless loop for an unreachable index, nor the copy that raises because the buffer was not rewound.
- FrameSeqDecoders.FrameSeqDecoder.Step: a render that fails part-way is not modelled. The APNG renderer catches the exception and leaves the buffer's position wherever the failure came. The GIF and WebP renderers let it through. The model's render (`AfterRender`) only rewinds a buffer too small for its copy and raises nothing. A buffer allocated for the image is never too small (`FrameSeqDecoders.RenderEndsAfterCanvas`).
- The GIF and APNG `read` raise `IllegalArgumentException` themselves when the snapshot capacity wraps negative, so for them `InitCanvasBounds` installs nothing. The model's `read` is a parameter of `InitCanvasBounds`, so its capacity path stays for WebP and for any read that succeeds.
- Left out because they are not the decoding core: the older Java copies (`FrameSeqDecoder.java`, `APNGDecoder.java`), the drawables and UI classes, the demo app, the Glide plugin and `WebPEncoder`.

## Findings

| source | as written | input that shows it | evidently intended | confidence | as-written member | corrected member |
|---|---|---|---|---|---|---|
| apng/src/main/java/com/github/penfeizhou/animation/apng/decode/APNGDecoder.kt:134-139 | the snapshot is retaken only when the op recorded for the previous frame is not PREVIOUS, and frame 0 after a loop is no exception | a 1 x 1 canvas whose last frame and first frame both have dispose op PREVIOUS: frame 1 starts from the previous loop's coloured snapshot instead of the cleared canvas | frame 0 starts a fresh snapshot | not executed | `APNGDecoders.StaleSnapshotAfterLoop` (with `APNGDecoders.NextSnapShotAsWritten`) | `APNGDecoders.NextSnapShot` (used by `APNGDecoders.APNGDecoder.PrepareApngBitmap`) |
| gif/src/main/java/com/github/penfeizhou/animation/gif/decode/GifDecoder.kt:96-130 | the snapshot for disposal 3 copies `frameBuffer`, which still holds the previous frame before its own disposal; it is skipped for frame 0 and after a frame whose disposal is 3 | frames with disposals 2, 3, 3 on a 1 x 1 canvas: frame 2 starts from frame 0's colour instead of the cleared canvas; frames with disposals 3, 1, 1, 3 on a 1 x 1 canvas: in the second loop frame 1 starts from the colour frame 2 left instead of the cleared canvas | every disposal-3 frame, frame 0 included, saves the canvas it is drawn on, after the previous disposal | not executed | `GifDecoders.AsWrittenRestoresDisposedFrame` and `GifDecoders.AsWrittenKeepsStaleSnapshot` (with `GifDecoders.NextSnapshotAsWritten`) | `GifDecoders.RestoredToPrevious` (with `GifDecoders.NextSnapshot`, used by `GifDecoders.GifDecoder.RenderFrame`) |
| frameanimation/src/main/java/com/github/penfeizhou/animation/decode/BitmapPool.kt:9-10 | the reuse test compares `allocationByteCount` (bytes) with `width * height` (pixels) and accepts any bitmap for an empty request | a pooled 1 x 1 bitmap (4 bytes) is handed out for a 2 x 2 request; a 0 x 5 request gets a bitmap instead of `null` | reuse a bitmap only when it holds `width * height * 4` bytes, and answer `null` for an empty size, as the doc at BaseFrameSeqDecoder.kt:113-119 says | not executed | `BitmapPools.AsWrittenReusesTooSmall` (with `BitmapPools.FirstFitAsWritten`) | `BitmapPools.ReusedFits` (with `BitmapPools.FirstFit`, used by `BitmapPools.BitmapPool.Obtain`) |
| frameanimation/src/main/java/com/github/penfeizhou/animation/decode/FrameSeqDecoder2.kt:71-78 | the stepping loop runs while `frameIndex < index` and `canStep()` holds | an image that loops forever (`numPlays <= 0`) and an index at or past the frame count: the cursor cycles through the frames and never reaches the index | stop when the index cannot be reached | not executed | `FrameSeqDecoders.FrameLoopNeverEndsPastLastFrame` | `FrameSeqDecoders.FrameSeqDecoder.GetFrameBitmap` |
| gif/src/main/java/com/github/penfeizhou/animation/gif/decode/ImageDescriptor.kt:187-189 | `localColorTableSize` is `2 shl (flag and 0xf)`, a 4-bit mask that takes in a reserved bit | packed byte 0x88: a local table of 2 entries is read as 512 | `2 shl (flag and 0x7)`, as in section 20 of GIF89a | not executed | `GifBlocks.LocalTableSizeDiverges` (with `GifBlocks.LocalColorTableSizeAsWritten`) | `GifBlocks.LocalColorTableSize` (used by `GifBlocks.ImageDescriptorAt` and `GifBlocks.ReceiveImageDescriptor`) |
| awebp/src/main/java/com/github/penfeizhou/animation/webp/decode/AnimationFrame.kt:37-41 | the RIFF size field holds the whole file length | the smallest frame (no image payload) gets a RIFF size of 30, while 22 bytes follow the field | the file length minus 8, as section 2.5 of RFC 9649 defines it | not executed | `WebPFrames.RiffSizeAsWritten` | `WebPFrames.EncodedFrameParses` (for the output of `WebPFrames.Encode`) |
| frameanimation/src/main/java/com/github/penfeizhou/animation/decode/FrameSeqDecoder2.kt:79-86 | the bitmap is copied from `frameBuffer` where the last render left its position, right after the canvas it copied in | `getFrameBitmap(0)` on a one-frame 2 x 2 image at sample size 1: the 20-byte buffer is left at position 16, so 4 bytes remain for a copy of 16 and `copyPixelsFromBuffer` raises | rewind the buffer before the copy, as the older `FrameSeqDecoder.java:421-422` does | not executed | `FrameSeqDecoders.AsWrittenCopyFails` | `FrameSeqDecoders.RewoundCopyFits` (used by `FrameSeqDecoders.FrameSeqDecoder.GetFrameBitmap`) |
