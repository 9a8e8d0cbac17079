/** Optional values and results with an error, used where the Python code has `None` or raises. */
module Wrappers {

  /** Python's `None` (absent) or a present value. */
  datatype Option<+T> = None | Some(value: T)

  /** A value, or the exception the Python code would raise instead. */
  datatype Result<+T, +E> = Ok(value: T) | Err(error: E)
}
