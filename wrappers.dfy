/** Failure-compatible wrappers shared by the other modules. */
module Wrappers {

  /** A pandas cell: `None` is NaN (an empty spreadsheet cell), `Some(s)` is `str(value)`. */
  datatype Option<+T> = None | Some(value: T)

  /** The outcome of a step that may raise: `Err` carries `str(exception)`. */
  datatype Result<+T, +E> = Ok(value: T) | Err(error: E)
}
