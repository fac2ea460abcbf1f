/** Values that stand for the two ways a step of the program can end:
    with a value, or without one. */
module Outcomes {

  datatype Option<+T> = None | Some(value: T)

  /** A result or the error that the source raises instead. */
  datatype Result<+T, +E> = Ok(value: T) | Err(error: E)
}
