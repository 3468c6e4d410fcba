/** Failure-carrying values shared by every module of the model. */
module Wrappers {

  /** Python's `None` / C#'s `null`, or a present value. */
  datatype Option<+T> = None | Some(value: T)

  /** A value, or the exception an operation raises instead of returning. */
  datatype Result<+T, +E> = Ok(value: T) | Err(error: E)
}
