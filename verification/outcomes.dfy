/** Optional values and success/failure values, for the places where the Python
    script returns None or raises an exception. */
module Outcomes {

  /** A value that may be missing (Python's None). */
  datatype Option<+T> = None | Some(value: T)

  /** A computed value, or the error the script would raise or report instead. */
  datatype Outcome<+T, +E> = Ok(value: T) | Fail(error: E)
}
