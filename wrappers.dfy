/** Option, Result and Outcome: the model's stand-ins for Python's None and
    for the exceptions the pipeline raises. */
module Wrappers {

  /** A value that may be absent: a missing (NaN) cell, an omitted argument. */
  datatype Option<+T> = None | Some(value: T)

  /** A value, or the error an operation raised instead of returning it. */
  datatype Result<+R, +E> = Success(value: R) | Failure(error: E)

  /** A check that either passes or raises an error. */
  datatype Outcome<+E> = Pass | Fail(error: E)
}
