/**
 * Byte-level arithmetic shared by the three container formats: the fixed-width
 * big- and little-endian decodings, the byte extraction `(v shr 8k) and 0xff`
 * the writers use, and the signed 16- and 32-bit views of Kotlin's `Short` and `Int`.
 */
module Bytes {

  /** A stream byte, read as `b.toInt() and 0xff`. */
  type Byte = x: int | 0 <= x < 256

  const TWO_8: int := 0x100
  const TWO_16: int := 0x1_0000
  const TWO_24: int := 0x100_0000
  const TWO_32: int := 0x1_0000_0000

  /** Kotlin's signed view of a stream byte (`b.toInt()` without a mask). */
  function SignedByte(b: Byte): (r: int)
    ensures -128 <= r < 128
    ensures r % 256 == b
    ensures r >= 0 <==> b < 128
  {
    if b < 128 then b else b - 256
  }

  predicate IsInt32(v: int) {
    -0x8000_0000 <= v < 0x8000_0000
  }

  /** The Kotlin `Int` whose 32 bits are those of `u` (two's complement). */
  function I32(u: int): (r: int)
    ensures IsInt32(r)
    ensures (r - u) % TWO_32 == 0
  {
    var m := u % TWO_32;
    if m < 0x8000_0000 then m else m - TWO_32
  }

  /** The Kotlin `Short` whose 16 bits are those of `u`. */
  function I16(u: int): (r: int)
    ensures -0x8000 <= r < 0x8000
    ensures (r - u) % TWO_16 == 0
  {
    var m := u % TWO_16;
    if m < 0x8000 then m else m - TWO_16
  }

  /** Kotlin's `/` on `Int`s: the quotient rounded toward zero. */
  function TruncDiv(a: int, b: int): (r: int)
    requires b != 0
    ensures a >= 0 && b > 0 ==> r == a / b
    ensures a < 0 && b > 0 ==> r == -((-a) / b)
    ensures (a >= 0) == (b > 0) ==> r >= 0
    ensures (a >= 0) != (b > 0) ==> r <= 0
  {
    var q := (if a >= 0 then a else -a) / (if b > 0 then b else -b);
    if (a >= 0) == (b > 0) then q else -q
  }

  /** Byte i of `b` is the code of character i of `chars`. */
  predicate BytesSpell(b: seq<Byte>, chars: string)
  {
    |b| == |chars| && forall i :: 0 <= i < |b| ==> b[i] == chars[i] as int
  }

  /** `c.code and 0xff`: the low byte of a character's code. */
  function LowByte(c: char): Byte
  {
    (c as int) % 256
  }

  /** The low bytes of a string's characters, as the FourCC writers emit them. */
  function LowBytes(s: string): (b: seq<Byte>)
    ensures |b| == |s|
  {
    seq(|s|, i requires 0 <= i < |s| => LowByte(s[i]))
  }

  /** 2^(8k), for the byte positions of a 32-bit word. */
  function Shift(k: nat): int
    requires k < 4
  {
    if k == 0 then 1 else if k == 1 then TWO_8 else if k == 2 then TWO_16 else TWO_24
  }

  /** `(v shr (8 * k)) and 0xff`, for an arithmetic shift of a Kotlin `Int`: the
   *  shift is a floor division by 2^(8k). */
  function ByteOf(v: int, k: nat): Byte
    requires k < 4
  {
    (v / Shift(k)) % 256
  }

  /** Little-endian decodings: byte i holds bits 8i .. 8i+7. */
  function LE16(b0: Byte, b1: Byte): (r: int)
    ensures 0 <= r < TWO_16
  {
    b0 + TWO_8 * b1
  }

  function LE24(b0: Byte, b1: Byte, b2: Byte): (r: int)
    ensures 0 <= r < TWO_24
  {
    b0 + TWO_8 * b1 + TWO_16 * b2
  }

  function LE32(b0: Byte, b1: Byte, b2: Byte, b3: Byte): (r: int)
    ensures 0 <= r < TWO_32
  {
    b0 + TWO_8 * b1 + TWO_16 * b2 + TWO_24 * b3
  }

  /** Big-endian decodings: the first byte is the most significant. */
  function BE16(b0: Byte, b1: Byte): (r: int)
    ensures 0 <= r < TWO_16
  {
    TWO_8 * b0 + b1
  }

  function BE32(b0: Byte, b1: Byte, b2: Byte, b3: Byte): (r: int)
    ensures 0 <= r < TWO_32
  {
    TWO_24 * b0 + TWO_16 * b1 + TWO_8 * b2 + b3
  }

  /** The bytes a writer emits for `v`, least significant first (2, 3 or 4 of them). */
  function LE2(v: int): seq<Byte> {
    [ByteOf(v, 0), ByteOf(v, 1)]
  }

  function LE3(v: int): seq<Byte> {
    [ByteOf(v, 0), ByteOf(v, 1), ByteOf(v, 2)]
  }

  function LE4(v: int): seq<Byte> {
    [ByteOf(v, 0), ByteOf(v, 1), ByteOf(v, 2), ByteOf(v, 3)]
  }

  /** The bytes a writer emits for `v`, most significant first. */
  function BE4(v: int): seq<Byte> {
    [ByteOf(v, 3), ByteOf(v, 2), ByteOf(v, 1), ByteOf(v, 0)]
  }

  // ---------------------------------------------------------------------
  // Round trips between the writers' byte extraction and the decodings.

  lemma LE16OfLE2(v: int)
    ensures LE16(LE2(v)[0], LE2(v)[1]) == v % TWO_16
  {
  }

  /** Division with remainder by 256 is unique. */
  lemma DivMod256(v: int, q: int, r: int)
    requires v == 256 * q + r && 0 <= r < 256
    ensures v % 256 == r && v / 256 == q
  {
  }

  lemma Mod24(v: int, q: int, r: int)
    requires v == TWO_24 * q + r && 0 <= r < TWO_24
    ensures v % TWO_24 == r
  {
  }

  lemma Mod32(v: int, q: int, r: int)
    requires v == TWO_32 * q + r && 0 <= r < TWO_32
    ensures v % TWO_32 == r
  {
  }

  /** Shifting by 16 or 24 bits is shifting by 8 bits two or three times. */
  lemma ShiftSteps(v: int)
    ensures v / TWO_16 == (v / 256) / 256
    ensures v / TWO_24 == ((v / 256) / 256) / 256
    ensures v / TWO_32 == (((v / 256) / 256) / 256) / 256
  {
  }

  lemma LE24OfLE3(v: int)
    ensures LE24(LE3(v)[0], LE3(v)[1], LE3(v)[2]) == v % TWO_24
  {
    ShiftSteps(v);
    var q1 := v / 256;
    var q2 := q1 / 256;
    var q3 := q2 / 256;
    assert v == q1 * 256 + v % 256;
    assert q1 == q2 * 256 + q1 % 256;
    assert q2 == q3 * 256 + q2 % 256;
    var L := LE24(v % 256, q1 % 256, q2 % 256);
    assert v == TWO_24 * q3 + L;
    Mod24(v, q3, L);
  }

  lemma LE32OfLE4(v: int)
    ensures LE32(LE4(v)[0], LE4(v)[1], LE4(v)[2], LE4(v)[3]) == v % TWO_32
  {
    ShiftSteps(v);
    var q1 := v / 256;
    var q2 := q1 / 256;
    var q3 := q2 / 256;
    var q4 := q3 / 256;
    assert v == q1 * 256 + v % 256;
    assert q1 == q2 * 256 + q1 % 256;
    assert q2 == q3 * 256 + q2 % 256;
    assert q3 == q4 * 256 + q3 % 256;
    var L := LE32(v % 256, q1 % 256, q2 % 256, q3 % 256);
    assert v == TWO_32 * q4 + L;
    Mod32(v, q4, L);
  }

  lemma BE32OfBE4(v: int)
    ensures BE32(BE4(v)[0], BE4(v)[1], BE4(v)[2], BE4(v)[3]) == v % TWO_32
  {
    LE32OfLE4(v);
  }

  /** Writing a Kotlin `Int` and reading it back as an `Int` gives it back. */
  lemma I32OfMod(v: int)
    requires IsInt32(v)
    ensures I32(v % TWO_32) == v
  {
  }

  /** The bytes of a little-endian decoded word are the bytes it was decoded from,
   *  whether the word is read unsigned or as a Kotlin `Int`. */
  lemma LE4OfLE32(b0: Byte, b1: Byte, b2: Byte, b3: Byte)
    ensures LE4(LE32(b0, b1, b2, b3)) == [b0, b1, b2, b3]
    ensures LE4(I32(LE32(b0, b1, b2, b3))) == [b0, b1, b2, b3]
  {
    var u := LE32(b0, b1, b2, b3);
    ShiftSteps(u);
    ShiftSteps(u - TWO_32);
    DivMod256(u, b1 + 256 * b2 + TWO_16 * b3, b0);
    var u1 := b1 + 256 * b2 + TWO_16 * b3;
    DivMod256(u1, b2 + 256 * b3, b1);
    DivMod256(b2 + 256 * b3, b3, b2);
    DivMod256(b3, 0, b3);
    var s := u - TWO_32;
    DivMod256(s, b1 + 256 * b2 + TWO_16 * (b3 - 256), b0);
    DivMod256(b1 + 256 * b2 + TWO_16 * (b3 - 256), b2 + 256 * (b3 - 256), b1);
    DivMod256(b2 + 256 * (b3 - 256), b3 - 256, b2);
    DivMod256(b3 - 256, -1, b3);
    assert I32(u) == u || I32(u) == s;
  }

  lemma BE4OfBE32(b0: Byte, b1: Byte, b2: Byte, b3: Byte)
    ensures BE4(BE32(b0, b1, b2, b3)) == [b0, b1, b2, b3]
    ensures BE4(I32(BE32(b0, b1, b2, b3))) == [b0, b1, b2, b3]
  {
    LE4OfLE32(b3, b2, b1, b0);
    assert BE32(b0, b1, b2, b3) == LE32(b3, b2, b1, b0);
  }

  /** `b and weight == weight` for a single-bit mask `weight` (1, 2, 4, ..., 0x80). */
  predicate HasBit(b: Byte, weight: int)
    requires weight in {1, 2, 4, 8, 16, 32, 64, 128}
  {
    (b / weight) % 2 == 1
  }
}
