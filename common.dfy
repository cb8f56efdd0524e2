/**
 * Shared vocabulary: Go's `byte` and byte strings, and the Option and
 * Result wrappers used for Go's `(value, error)` returns.
 */
module Common {

  /** A Go `byte`. */
  newtype byte = b: int | 0 <= b < 256

  /** A Go `string` or `[]byte`: both are indexed byte by byte. */
  type Bytes = seq<byte>

  datatype Option<+T> = None | Some(value: T)

  /** A Go result pair in which exactly one of the value and the error is meaningful. */
  datatype Result<+T, +E> = Ok(value: T) | Err(error: E)

  /** Go's `io.EOF`, `io.ErrUnexpectedEOF` and `io.ErrClosedPipe`. */
  datatype IoError = EOF | UnexpectedEOF | ClosedPipe

  /** The bytes of a string literal written in ASCII (each character taken modulo 256). */
  function Ascii(s: string): Bytes
  {
    seq(|s|, i requires 0 <= i < |s| => (s[i] as int % 256) as byte)
  }
}
