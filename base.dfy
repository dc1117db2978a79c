/** Small shared vocabulary: optional values and bytes. */
module Base {

  /** A value that may be absent (Python's `None`). */
  datatype Option<+T> = None | Some(value: T)

  /** One octet, as Python's `bytes` holds them. */
  type byte = x: int | 0 <= x < 256

  type bytes = seq<byte>

  /** The result of Python code that may raise: a value, or the exception's
      message. */
  datatype Result<+T> = Returned(value: T) | Raised(error: string)
}
