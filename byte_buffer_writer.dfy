/**
 * The writer the frame encoders fill: a byte array that is reallocated only when
 * a reset asks for more than it holds, and a position that puts and skips advance.
 */
module ByteBufferWriters {
  import opened Bytes

  /** The capacity the writer starts with: `reset(10 * 1024)` on a zero-capacity buffer. */
  const INITIAL_CAPACITY: int := 10 * 1024

  class ByteBufferWriter {
    /** The backing array; `toByteArray` hands out this very array. */
    var buffer: array<Byte>
    var pos: int

    /** The position stays within the limit, and the capacity never drops below its start. */
    ghost predicate Valid()
      reads this
    {
      0 <= pos <= buffer.Length && buffer.Length >= INITIAL_CAPACITY
    }

    /** What has been written so far. */
    ghost function Written(): seq<Byte>
      reads this, buffer
      requires Valid()
    {
      buffer[..pos]
    }

    /** Allocation zero-fills. */
    constructor ()
      ensures Valid() && fresh(buffer)
      ensures buffer.Length == INITIAL_CAPACITY && pos == 0
      ensures forall i :: 0 <= i < buffer.Length ==> buffer[i] == 0
    {
      buffer := new Byte[INITIAL_CAPACITY](_ => 0);
      pos := 0;
    }

    /**
     * Makes room for `size` bytes: a new zero-filled array only when `size`
     * exceeds the capacity, otherwise the same array with its old contents.
     * Either way the position goes back to 0.
     */
    method Reset(size: int)
      requires Valid()
      modifies this
      ensures Valid() && pos == 0
      ensures buffer.Length >= old(buffer.Length) && buffer.Length >= size
      ensures size > old(buffer.Length) ==>
        fresh(buffer) && buffer.Length == size && forall i :: 0 <= i < buffer.Length ==> buffer[i] == 0
      ensures size <= old(buffer.Length) ==> buffer == old(buffer) && buffer[..] == old(buffer[..])
    {
      if size > buffer.Length {
        buffer := new Byte[size](_ => 0);
      }
      pos := 0;
    }

    /** Writes `b` at the position and moves past it. */
    method PutByte(b: Byte)
      requires Valid() && pos < buffer.Length
      modifies this, buffer
      ensures Valid() && buffer == old(buffer)
      ensures pos == old(pos) + 1
      ensures buffer[..] == old(buffer[..])[old(pos) := b]
      ensures Written() == old(Written()) + [b]
    {
      buffer[pos] := b;
      pos := pos + 1;
    }

    /** Writes `b` at the position and moves past it. */
    method PutBytes(b: seq<Byte>)
      requires Valid() && pos + |b| <= buffer.Length
      modifies this, buffer
      ensures Valid() && buffer == old(buffer)
      ensures pos == old(pos) + |b|
      ensures buffer[..] == old(buffer[..pos]) + b + old(buffer[pos + |b|..])
      ensures Written() == old(Written()) + b
    {
      forall i | pos <= i < pos + |b| {
        buffer[i] := b[i - pos];
      }
      assert buffer[..] == old(buffer[..pos]) + b + old(buffer[pos + |b|..]);
      pos := pos + |b|;
    }

    method Position() returns (p: int)
      requires Valid()
      ensures p == pos && 0 <= p <= buffer.Length
    {
      p := pos;
    }

    /** Moves the position by `length` and leaves every byte as it is. */
    method Skip(length: int)
      requires Valid() && 0 <= pos + length <= buffer.Length
      modifies this
      ensures Valid() && buffer == old(buffer)
      ensures pos == old(pos) + length
    {
      pos := pos + length;
    }

    /** The backing array itself, not a copy. */
    method ToByteArray() returns (a: array<Byte>)
      requires Valid()
      ensures a == buffer
    {
      a := buffer;
    }
  }
}
