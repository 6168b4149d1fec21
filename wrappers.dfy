/** Option and Result, used for the values the loop unwraps and the errors it can hit. */
module Wrappers {
  datatype Option<+T> = None | Some(value: T)

  datatype Result<+T, +E> = Success(value: T) | Failure(error: E)
}
