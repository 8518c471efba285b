/**
 * The GIF blocks the decoder reads (GIF89a sections 18, 20, 23 and 26): the
 * logical screen descriptor, the image descriptor with its optional local colour
 * table and its skipped image data, the graphic control extension and the
 * application extension that carries the NETSCAPE2.0 loop count. Each `receive`
 * is a method over the reader, proved against a function of the bytes; the packed
 * fields are decoded with the masks the source applies.
 */
module GifBlocks {
  import opened Bytes
  import opened Results
  import opened ByteBufferReaders
  import opened GifReaders

  function Pow2(n: nat): (r: int)
    ensures r >= 1
  {
    if n == 0 then 1 else 2 * Pow2(n - 1)
  }

  /** Section 18: the canvas and the global colour table's packed description. */
  datatype ScreenDescriptor = ScreenDescriptor(screenWidth: int, screenHeight: int, flag: Byte, bgColorIndex: Byte, radio: Byte)
  {
    /** Bit 7: a global colour table follows. */
    predicate GColorTableFlag()
    {
      HasBit(flag, 0x80)
    }

    /** `((flag and 0x70) shr 4) + 1`: bits 4-6, plus one. */
    function ColorResolution(): (r: int)
      ensures 1 <= r <= 8
    {
      (flag / 16) % 8 + 1
    }

    /** Bit 3. */
    predicate SortFlag()
    {
      HasBit(flag, 0x8)
    }

    /** `2 shl (flag and 7)`: 2^(n+1) entries for the 3-bit field n. */
    function GColorTableSize(): (r: int)
      ensures 2 <= r <= 256
    {
      SmallPow2(flag % 8 + 1);
      Pow2(flag % 8 + 1)
    }
  }

  lemma {:induction false} SmallPow2(n: nat)
    requires 1 <= n <= 8
    ensures 2 <= Pow2(n) <= 256
    decreases 8 - n
  {
    if n < 8 {
      SmallPow2(n + 1);
      assert Pow2(n + 1) == 2 * Pow2(n);
    } else {
      assert Pow2(8) == 256;
    }
  }

  /** A colour table's entries: red in the low byte, then green, then blue (GIF89a section 19). */
  datatype ColorTable = ColorTable(colors: seq<int>)

  /** Section 20: a frame's placement and packed description, and where its LZW data starts. */
  datatype ImageDescriptor = ImageDescriptor(
    frameX: int, frameY: int, frameWidth: int, frameHeight: int, flag: Byte,
    localColorTable: Option<ColorTable>, lzwMinimumCodeSize: int, imageDataOffset: int)
  {
    /** Bit 7: a local colour table follows the descriptor. */
    predicate LocalColorTableFlag()
    {
      HasBit(flag, 0x80)
    }

    /** Bit 6. */
    predicate InterlaceFlag()
    {
      HasBit(flag, 0x40)
    }

    /** Bit 5. */
    predicate SortFlag()
    {
      HasBit(flag, 0x20)
    }
  }

  /** The local table's size from the 3-bit field of section 20: 2^(n+1) entries. */
  function LocalColorTableSize(flag: Byte): (r: int)
    ensures 2 <= r <= 256
  {
    SmallPow2(flag % 8 + 1);
    Pow2(flag % 8 + 1)
  }

  /** The source's `2 shl (flag and 0xf)`: a 4-bit mask, which takes in the reserved bit 3. */
  function LocalColorTableSizeAsWritten(flag: Byte): (r: int)
    ensures r >= 2
  {
    Pow2(flag % 16 + 1)
  }

  /**
   * Both readings agree while the reserved bit is clear; with it set (packed byte
   * 0x88, a local table of 2 entries) the source reads a table of 512 entries.
   */
  lemma LocalTableSizeDiverges(flag: Byte)
    ensures !HasBit(flag, 0x8) ==> LocalColorTableSizeAsWritten(flag) == LocalColorTableSize(flag)
    ensures HasBit(flag, 0x8) ==> LocalColorTableSizeAsWritten(flag) == 256 * LocalColorTableSize(flag)
    ensures LocalColorTableSize(0x88) == 2 && LocalColorTableSizeAsWritten(0x88) == 512
  {
    var low := flag % 8;
    assert flag % 16 == low + 8 * ((flag / 8) % 2);
    if HasBit(flag, 0x8) {
      Pow2Shift(low + 1, 8);
    }
    assert Pow2(9) == 512;
  }

  lemma {:induction false} Pow2Shift(n: nat, k: nat)
    ensures Pow2(n + k) == Pow2(k) * Pow2(n)
  {
    if k > 0 {
      Pow2Shift(n, k - 1);
    }
  }

  /** Section 23: disposal, user input and transparency, the delay in 1/100 s and the transparent index. */
  datatype GraphicControl = GraphicControl(blockSize: Byte, packedFields: Byte, delayTime: int, transparentColorIndex: Byte)
  {
    /** Bits 2-4. */
    function DisposalMethod(): (r: int)
      ensures 0 <= r <= 7
    {
      (packedFields / 4) % 8
    }

    /** Bit 1. */
    predicate UserInputFlag()
    {
      HasBit(packedFields, 0x2)
    }

    /** Bit 0. */
    predicate TransparencyFlag()
    {
      HasBit(packedFields, 0x1)
    }
  }

  /** Section 26: the application identifier and, for NETSCAPE2.0, the loop count (-1 when absent). */
  datatype ApplicationExtension = ApplicationExtension(identifier: string, loopCount: int)

  /** The identifier of the looping extension. */
  const NETSCAPE: string := "NETSCAPE2.0"

  // ---------------------------------------------------------------------
  // The blocks as functions of the bytes.

  /** `LogicalScreenDescriptor.receive` at `p`: width and height (LE16), packed, background index, aspect. */
  function ScreenDescriptorAt(data: seq<Byte>, p: int): (r: Result<Parsed<ScreenDescriptor>>)
    requires 0 <= p <= |data|
    ensures r.Ok? <==> p + 7 <= |data|
    ensures r.Ok? ==> r.value.next == p + 7 && 0 <= r.value.value.screenWidth < TWO_16 && 0 <= r.value.value.screenHeight < TWO_16
    ensures r.Err? ==> r.error == Underflow
  {
    if p + 7 <= |data| then
      Ok(Parsed(ScreenDescriptor(LE16At(data, p), LE16At(data, p + 2), data[p + 4], data[p + 5], data[p + 6]), p + 7))
    else Err(Underflow)
  }

  /** Colour `i` of a table at `p`: three bytes, red first, packed low byte first. */
  function ColorAt(data: seq<Byte>, p: int, i: int): int
    requires 0 <= p && 0 <= i && p + 3 * i + 3 <= |data|
  {
    data[p + 3 * i] + 256 * data[p + 3 * i + 1] + TWO_16 * data[p + 3 * i + 2]
  }

  /** A table of `n` colours at `p`. */
  function ColorTableAt(data: seq<Byte>, p: int, n: nat): (r: Result<Parsed<ColorTable>>)
    requires 0 <= p <= |data|
    ensures r.Ok? <==> p + 3 * n <= |data|
    ensures r.Ok? ==> r.value.next == p + 3 * n && |r.value.value.colors| == n
    ensures r.Ok? ==> forall i :: 0 <= i < n ==> r.value.value.colors[i] == ColorAt(data, p, i)
    ensures r.Err? ==> r.error == Underflow
  {
    if p + 3 * n <= |data| then
      Ok(Parsed(ColorTable(seq(n, i requires 0 <= i < n => ColorAt(data, p, i))), p + 3 * n))
    else Err(Underflow)
  }

  /**
   * Data sub-blocks from `p` (GIF89a section 15): a size byte and that many bytes,
   * skipped until a size of 0; the answer is the position after it.
   */
  function SubBlocksEnd(data: seq<Byte>, p: int): (r: Result<int>)
    requires 0 <= p <= |data| <= MAX_LIMIT
    ensures r.Ok? ==> p < r.value <= |data| && data[r.value - 1] == 0
    ensures r.Err? ==> r.error == Underflow || r.error == BadPosition
    decreases |data| - p
  {
    if p >= |data| then Err(Underflow)
    else if data[p] == 0 then Ok(p + 1)
    else
      SkipForward(data, p + 1, data[p]);
      var q :- SkipAt(data, p + 1, data[p]);
      SubBlocksEnd(data, q)
  }

  /**
   * `ImageDescriptor.receive` at `p`: four LE16 fields and the packed byte, the
   * local colour table if bit 7 is set, the LZW minimum code size, then the image
   * data skipped sub-block by sub-block; the data offset is the position after
   * the code size byte.
   */
  function ImageDescriptorAt(data: seq<Byte>, p: int): (r: Result<Parsed<ImageDescriptor>>)
    requires 0 <= p <= |data| <= MAX_LIMIT
    ensures r.Ok? ==> p + 11 <= r.value.next <= |data|
    ensures r.Ok? ==> var d := r.value.value;
      && d.frameX == LE16At(data, p) && d.frameY == LE16At(data, p + 2)
      && d.frameWidth == LE16At(data, p + 4) && d.frameHeight == LE16At(data, p + 6)
      && d.flag == data[p + 8]
      && (d.localColorTable.Some? <==> d.LocalColorTableFlag())
      && (d.localColorTable.Some? ==> |d.localColorTable.value.colors| == LocalColorTableSize(d.flag))
      && p + 10 <= d.imageDataOffset < r.value.next
      && d.imageDataOffset == (if d.LocalColorTableFlag() then p + 10 + 3 * LocalColorTableSize(d.flag) else p + 10)
      && d.lzwMinimumCodeSize == data[d.imageDataOffset - 1]
      && SubBlocksEnd(data, d.imageDataOffset) == Ok(r.value.next)
  {
    if p + 9 > |data| then Err(Underflow)
    else
      var flag := data[p + 8];
      var table :-
        if HasBit(flag, 0x80) then
          var t :- ColorTableAt(data, p + 9, LocalColorTableSize(flag));
          Ok(Parsed(Some(t.value), t.next))
        else Ok(Parsed(None, p + 9));
      if table.next >= |data| then Err(Underflow)
      else
        var offset := table.next + 1;
        var end :- SubBlocksEnd(data, offset);
        Ok(Parsed(ImageDescriptor(LE16At(data, p), LE16At(data, p + 2), LE16At(data, p + 4), LE16At(data, p + 6),
          flag, table.value, data[table.next], offset), end))
  }

  /**
   * `GraphicControlExtension.receive` at `p`: block size, packed byte, delay
   * (LE16) and transparent index; the block terminator must be 0.
   */
  function GraphicControlAt(data: seq<Byte>, p: int): (r: Result<Parsed<GraphicControl>>)
    requires 0 <= p <= |data|
    ensures r.Ok? <==> p + 6 <= |data| && data[p + 5] == 0
    ensures p + 6 <= |data| && data[p + 5] != 0 ==> r == Err(FormatError)
    ensures p + 6 > |data| ==> r == Err(Underflow)
    ensures r.Ok? ==> r.value.next == p + 6 && 0 <= r.value.value.delayTime < TWO_16
  {
    if p + 6 > |data| then Err(Underflow)
    else if data[p + 5] != 0 then Err(FormatError)
    else Ok(Parsed(GraphicControl(data[p], data[p + 1], LE16At(data, p + 2), data[p + 4]), p + 6))
  }

  /** `Char(b.toUShort())`: a byte from 0x80 on sign-extends to 0xff80 and above. */
  function IdentifierChar(b: Byte): (c: char)
    ensures b < 128 ==> c as int == b
    ensures b >= 128 ==> c as int == b + 0xff00
  {
    if b < 128 then b as char else (b + 0xff00) as char
  }

  function IdentifierAt(data: seq<Byte>, p: int, n: nat): (s: string)
    requires 0 <= p && p + n <= |data|
    ensures |s| == n && forall i :: 0 <= i < n ==> s[i] == IdentifierChar(data[p + i])
  {
    seq(n, i requires 0 <= i < n => IdentifierChar(data[p + i]))
  }

  /**
   * `ApplicationExtension.receive` at `p`: the first byte, read signed, counts the
   * identifier's characters; for NETSCAPE2.0 a sub-block of size 3 whose first byte
   * is 1 carries the loop count (LE16); what remains is skipped through the terminator.
   */
  function ApplicationExtensionAt(data: seq<Byte>, p: int): (r: Result<Parsed<ApplicationExtension>>)
    requires 0 <= p <= |data| <= MAX_LIMIT
    ensures r.Ok? ==> p < r.value.next <= |data|
  {
    if p >= |data| then Err(Underflow)
    else
      var n := if SignedByte(data[p]) > 0 then SignedByte(data[p]) else 0;
      if p + 1 + n > |data| then Err(Underflow)
      else
        AfterIdentifier(data, p + 1 + n, IdentifierAt(data, p + 1, n))
  }

  /** The rest of the extension once the identifier is read and the position is `q`. */
  function AfterIdentifier(data: seq<Byte>, q: int, identifier: string): (r: Result<Parsed<ApplicationExtension>>)
    requires 0 <= q <= |data| <= MAX_LIMIT
    ensures r.Ok? ==> q < r.value.next <= |data| && r.value.value.identifier == identifier
  {
    if identifier != NETSCAPE then
      var end :- SubBlocksEnd(data, q);
      Ok(Parsed(ApplicationExtension(identifier, -1), end))
    else if q >= |data| then Err(Underflow)
    else if data[q] != 3 then
      var end :- SubBlocksEnd(data, q + 1);
      Ok(Parsed(ApplicationExtension(identifier, -1), end))
    else if q + 1 >= |data| then Err(Underflow)
    else if data[q + 1] != 1 then
      var end :- SubBlocksEnd(data, q + 2);
      Ok(Parsed(ApplicationExtension(identifier, -1), end))
    else if q + 4 > |data| then Err(Underflow)
    else
      var end :- SubBlocksEnd(data, q + 4);
      Ok(Parsed(ApplicationExtension(identifier, LE16At(data, q + 2)), end))
  }

  /** The NETSCAPE2.0 loop sub-block `03 01 lo hi 00` sets the loop count to the LE16 value. */
  lemma NetscapeLoopCount(data: seq<Byte>, p: int, loops: int)
    requires 0 <= p && p + 18 <= |data| <= MAX_LIMIT && 0 <= loops < TWO_16
    requires data[p] == 11 && forall i :: 0 <= i < 11 ==> data[p + 1 + i] == NETSCAPE[i] as int
    requires data[p + 12] == 3 && data[p + 13] == 1
    requires data[p + 14] == loops % 256 && data[p + 15] == loops / 256 && data[p + 16] == 0
    ensures ApplicationExtensionAt(data, p) == Ok(Parsed(ApplicationExtension(NETSCAPE, loops), p + 17))
  {
    assert IdentifierAt(data, p + 1, 11) == NETSCAPE;
  }

  // ---------------------------------------------------------------------
  // The receivers over the reader.

  method ReceiveScreenDescriptor(r: ByteBufferReader) returns (res: Result<ScreenDescriptor>)
    requires r.Valid()
    modifies r
    ensures r.Valid()
    ensures var spec := ScreenDescriptorAt(r.data, old(r.pos));
      && (res.Ok? <==> spec.Ok?)
      && (res.Ok? ==> res.value == spec.value.value && r.pos == spec.value.next)
      && (res.Err? ==> res.error == Underflow)
  {
    var screenWidth :- ReadUInt16(r);
    var screenHeight :- ReadUInt16(r);
    var flag :- r.Peek();
    var bgColorIndex :- r.Peek();
    var radio :- r.Peek();
    res := Ok(ScreenDescriptor(screenWidth, screenHeight, flag, bgColorIndex, radio));
  }

  /** `ColorTable.receive`: `n` colours of three bytes each. */
  method ReceiveColorTable(r: ByteBufferReader, n: nat) returns (res: Result<ColorTable>)
    requires r.Valid()
    modifies r
    ensures r.Valid()
    ensures var spec := ColorTableAt(r.data, old(r.pos), n);
      && (res.Ok? <==> spec.Ok?)
      && (res.Ok? ==> res.value == spec.value.value && r.pos == spec.value.next)
      && (res.Err? ==> res.error == Underflow)
  {
    ghost var p := r.pos;
    var colors: seq<int> := [];
    for i := 0 to n
      invariant r.Valid() && r.pos == p + 3 * i && |colors| == i
      invariant forall k :: 0 <= k < i ==> colors[k] == ColorAt(r.data, p, k)
    {
      var red :- r.Peek();
      var green :- r.Peek();
      var blue :- r.Peek();
      colors := colors + [red + 256 * green + TWO_16 * blue];
    }
    res := Ok(ColorTable(colors));
  }

  /** The `while (peek() != 0) skip(size)` loop over the image data sub-blocks. */
  method SkipSubBlocks(r: ByteBufferReader) returns (res: Result<()>)
    requires r.Valid()
    modifies r
    ensures r.Valid()
    ensures var spec := SubBlocksEnd(r.data, old(r.pos));
      && (res.Ok? <==> spec.Ok?)
      && (res.Ok? ==> r.pos == spec.value)
      && (res.Err? ==> res.error == spec.error)
  {
    ghost var start := r.pos;
    var blockSize :- r.Peek();
    while blockSize != 0
      invariant r.Valid() && 0 < r.pos
      invariant blockSize == r.data[r.pos - 1]
      invariant SubBlocksEnd(r.data, r.pos - 1) == SubBlocksEnd(r.data, start)
      decreases |r.data| - r.pos
    {
      SkipForward(r.data, r.pos, blockSize);
      var skipped :- r.Skip(blockSize);
      blockSize :- r.Peek();
    }
    res := Ok(());
  }

  method ReceiveImageDescriptor(r: ByteBufferReader) returns (res: Result<ImageDescriptor>)
    requires r.Valid()
    modifies r
    ensures r.Valid()
    ensures var spec := ImageDescriptorAt(r.data, old(r.pos));
      && (res.Ok? <==> spec.Ok?)
      && (res.Ok? ==> res.value == spec.value.value && r.pos == spec.value.next)
      && (res.Err? ==> res.error == spec.error)
  {
    var placement :- ReadPlacement(r);
    var flag := placement.4;
    var localColorTable: Option<ColorTable> := None;
    if HasBit(flag, 0x80) {
      var table :- ReceiveColorTable(r, LocalColorTableSize(flag));
      localColorTable := Some(table);
    }
    var lzwMinimumCodeSize :- r.Peek();
    var imageDataOffset := r.Position();
    var skipped :- SkipSubBlocks(r);
    res := Ok(ImageDescriptor(placement.0, placement.1, placement.2, placement.3, flag, localColorTable,
      lzwMinimumCodeSize, imageDataOffset));
  }

  /** The descriptor's first 9 bytes: left, top, width and height (LE16), then the packed byte. */
  method ReadPlacement(r: ByteBufferReader) returns (res: Result<(int, int, int, int, Byte)>)
    requires r.Valid()
    modifies r
    ensures r.Valid()
    ensures res.Ok? <==> old(r.pos) + 9 <= |r.data|
    ensures res.Ok? ==> r.pos == old(r.pos) + 9
    ensures res.Ok? ==>
      res.value == (LE16At(r.data, old(r.pos)), LE16At(r.data, old(r.pos) + 2), LE16At(r.data, old(r.pos) + 4),
        LE16At(r.data, old(r.pos) + 6), r.data[old(r.pos) + 8])
    ensures res.Err? ==> res.error == Underflow
  {
    var frameX :- ReadUInt16(r);
    var frameY :- ReadUInt16(r);
    var frameWidth :- ReadUInt16(r);
    var frameHeight :- ReadUInt16(r);
    var flag :- r.Peek();
    res := Ok((frameX, frameY, frameWidth, frameHeight, flag));
  }

  method ReceiveGraphicControl(r: ByteBufferReader) returns (res: Result<GraphicControl>)
    requires r.Valid()
    modifies r
    ensures r.Valid()
    ensures var spec := GraphicControlAt(r.data, old(r.pos));
      && (res.Ok? <==> spec.Ok?)
      && (res.Ok? ==> res.value == spec.value.value && r.pos == spec.value.next)
      && (res.Err? ==> res.error == spec.error)
  {
    var blockSize :- r.Peek();
    var packedFields :- r.Peek();
    var delayTime :- ReadUInt16(r);
    var transparentColorIndex :- r.Peek();
    var terminator :- r.Peek();
    if terminator != 0 {
      return Err(FormatError);
    }
    res := Ok(GraphicControl(blockSize, packedFields, delayTime, transparentColorIndex));
  }

  /** `DataSubBlock.retrieve` in a `do ... while (!isTerminal)` loop: every sub-block through the terminator. */
  method SkipDataSubBlocks(r: ByteBufferReader) returns (res: Result<()>)
    requires r.Valid()
    modifies r
    ensures r.Valid()
    ensures var spec := SubBlocksEnd(r.data, old(r.pos));
      && (res.Ok? <==> spec.Ok?)
      && (res.Ok? ==> r.pos == spec.value)
      && (res.Err? ==> res.error == spec.error)
  {
    ghost var start := r.pos;
    var terminal := false;
    while !terminal
      invariant r.Valid()
      invariant terminal ==> 0 < r.pos && r.data[r.pos - 1] == 0 && SubBlocksEnd(r.data, start) == Ok(r.pos)
      invariant !terminal ==> SubBlocksEnd(r.data, r.pos) == SubBlocksEnd(r.data, start)
      decreases if terminal then 0 else |r.data| - r.pos + 1
    {
      var size :- r.Peek();
      SkipForward(r.data, r.pos, size);
      var skipped :- r.Skip(size);
      terminal := size == 0;
    }
    res := Ok(());
  }

  method ReceiveApplicationExtension(r: ByteBufferReader) returns (res: Result<ApplicationExtension>)
    requires r.Valid()
    modifies r
    ensures r.Valid()
    ensures var spec := ApplicationExtensionAt(r.data, old(r.pos));
      && (res.Ok? <==> spec.Ok?)
      && (res.Ok? ==> res.value == spec.value.value && r.pos == spec.value.next)
      && (res.Err? ==> res.error == spec.error)
  {
    var size :- r.Peek();
    var blockSize := SignedByte(size);
    var identifier :- ReadIdentifier(r, if blockSize > 0 then blockSize else 0);
    res := ReceiveLoopBlock(r, identifier);
  }

  /** After the identifier: the NETSCAPE2.0 loop sub-block if there is one, then the rest skipped. */
  method ReceiveLoopBlock(r: ByteBufferReader, identifier: string) returns (res: Result<ApplicationExtension>)
    requires r.Valid()
    modifies r
    ensures r.Valid()
    ensures var spec := AfterIdentifier(r.data, old(r.pos), identifier);
      && (res.Ok? <==> spec.Ok?)
      && (res.Ok? ==> res.value == spec.value.value && r.pos == spec.value.next)
      && (res.Err? ==> res.error == spec.error)
  {
    var loopCount := -1;
    if identifier == NETSCAPE {
      var subSize :- r.Peek();
      if subSize == 3 {
        var id :- r.Peek();
        if id == 1 {
          loopCount :- ReadUInt16(r);
        }
      }
    }
    var skipped :- SkipDataSubBlocks(r);
    res := Ok(ApplicationExtension(identifier, loopCount));
  }

  /** The identifier: `n` bytes, each read as a character. */
  method ReadIdentifier(r: ByteBufferReader, n: nat) returns (res: Result<string>)
    requires r.Valid()
    modifies r
    ensures r.Valid()
    ensures res.Ok? <==> old(r.pos) + n <= |r.data|
    ensures res.Ok? ==> r.pos == old(r.pos) + n && res.value == IdentifierAt(r.data, old(r.pos), n)
    ensures res.Err? ==> res.error == Underflow
  {
    ghost var p := r.pos;
    var identifier: string := [];
    for i := 0 to n
      invariant r.Valid() && r.pos == p + i && p + i <= |r.data|
      invariant identifier == IdentifierAt(r.data, p, i)
    {
      var b :- r.Peek();
      identifier := identifier + [IdentifierChar(b)];
    }
    res := Ok(identifier);
  }
}
