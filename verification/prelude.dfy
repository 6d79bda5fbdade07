/** Shared vocabulary: optional values, results, and the Java primitive
    types the storage code works with. */
module Prelude {

  /** A value or its absence; `None` plays the role of Java's `null`. */
  datatype Option<+T> = None | Some(value: T)

  /** The outcome of a step that may throw. */
  datatype Result<+R, +E> = Success(value: R) | Failure(error: E)

  /** The exceptions the storage code can raise, by kind:
      IoError         — an IOException (file missing, write failure, a
                        JsonProcessingException while decoding);
      IllegalArgument — the IllegalArgumentException `get` raises on a null key;
      Unchecked       — a RuntimeException the storage code does not catch
                        (a BufferUnderflowException on a short 4-byte read,
                        an IllegalArgumentException from a negative read length). */
  datatype Fault = IoError | IllegalArgument | Unchecked

  const MinInt: int := -0x8000_0000
  const MaxInt: int := 0x7FFF_FFFF

  /** Java `int`. */
  type Int32 = x: int | MinInt <= x <= MaxInt

  /** A byte, read as its unsigned bit pattern. */
  type Byte = x: int | 0 <= x < 0x100

  /** Java `char`: one UTF-16 code unit. */
  type Char16 = x: int | 0 <= x < 0x1_0000

  /** Java `String`: a sequence of UTF-16 code units. */
  type JString = seq<Char16>

  function Min(a: int, b: int): int { if a <= b then a else b }
}
