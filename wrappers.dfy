/** Option and Result, the shapes the modelled code uses for "absent" and for errors. */
module Wrappers {

  /** Python's `Optional[T]` and a JavaScript value that may be `undefined`. */
  datatype Option<+T> = None | Some(value: T)

  /** A value, or the error a Python `raise` or a JavaScript `throw` would carry. */
  datatype Result<+T, +E> = Success(value: T) | Failure(error: E)
}
