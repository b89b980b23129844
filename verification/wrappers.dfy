/** The optional-value and command-outcome types shared by the whole model. */
module Wrappers {

  /** A value that may be absent (JavaScript's `undefined` / `-1` "not found"). */
  datatype Option<+T> = None | Some(value: T)

  /** The outcome of a command handler: a new value, or the reason it was refused. */
  datatype Result<+R, +E> = Success(value: R) | Failure(error: E)
}
