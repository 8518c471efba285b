/** The exceptions the decoders can raise, as values. */
module Results {

  /** Why a read, a parse or an encode stopped without a value. */
  datatype Error =
    | Underflow     // a read asked for more bytes than remain (BufferUnderflowException, end of stream)
    | BadPosition   // a skip would move the position outside [0, limit] (IllegalArgumentException)
    | BadArgument   // a bulk read's destination range lies outside its array (IndexOutOfBoundsException)
    | FormatError   // the container's FormatException: bad signature, header or block terminator
    | OutOfChunk    // a chunk body read more bytes than the chunk declares
    | BadCapacity   // a byte buffer allocated with a negative capacity (IllegalArgumentException)
    | ShortBuffer   // a bitmap copied from a byte buffer with too few bytes remaining (RuntimeException)
    | EmptyBitmap   // a bitmap created with a side of 0 (IllegalArgumentException)
  {
    /** The two kinds the parsers raise as `IOException`s; the buffer's own exceptions are not. */
    predicate IsIOException() {
      FormatError? || OutOfChunk?
    }
  }

  /** A value or the error that replaced it; usable with `:-`. */
  datatype Result<+T> = Ok(value: T) | Err(error: Error) {
    predicate IsFailure() {
      Err?
    }

    function PropagateFailure<U>(): Result<U>
      requires Err?
    {
      Err(error)
    }

    function Extract(): T
      requires Ok?
    {
      value
    }
  }

  /** A value read from a byte sequence and the position just after it. */
  datatype Parsed<+T> = Parsed(value: T, next: int)

  /** `xs`, then what the rest of a walk over a stream gives; the walk's error if it stopped. */
  function Prepend<T>(xs: seq<T>, rest: Result<seq<T>>): Result<seq<T>>
  {
    match rest
    case Ok(ys) => Ok(xs + ys)
    case Err(e) => Err(e)
  }

  /** One step of such a walk: the item read moves from the rest of the walk to its prefix. */
  lemma PrependStep<T>(xs: seq<T>, x: T, rest: Result<seq<T>>)
    ensures Prepend(xs, match rest case Ok(ys) => Ok([x] + ys) case Err(e) => Err(e)) == Prepend(xs + [x], rest)
  {
    match rest
    case Err(_) =>
    case Ok(ys) => assert xs + ([x] + ys) == xs + [x] + ys;
  }

  /** The conventional optional value (Kotlin's nullable types). */
  datatype Option<+T> = None | Some(value: T)
}
