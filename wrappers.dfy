/** Option, Result and Outcome: how the model spells Python's None and raised exceptions. */
module Wrappers {

  /** A value that may be absent (Python's `None`). */
  datatype Option<+T> = None | Some(value: T)

  /** The value of a call that either returns `value` or raises `error`. */
  datatype Result<+R, +E> = Success(value: R) | Failure(error: E)

  /** The value of a call that returns nothing useful or raises `error`. */
  datatype Outcome<+E> = Pass | Fail(error: E)
}
