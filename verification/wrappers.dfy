/** Failure-carrying results, and the exceptions the modelled Python code can raise. */
module Wrappers {

  datatype Option<+T> = None | Some(value: T)

  datatype Result<+R, +E> = Success(value: R) | Failure(error: E)

  /** The Python exceptions that escape from the codec: `heap[0]` on an empty heap,
      `i % len(key_bytes)` with an empty key, and `base64.b64decode` on malformed input. */
  datatype Error = IndexError | ZeroDivisionError | Base64Error

  /** A byte: one element of a Python `bytes` / `bytearray`. */
  type byte = b: int | 0 <= b < 256
}
