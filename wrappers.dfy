/** Option and Result, the model's stand-ins for JavaScript's undefined/NaN
    and for the early `return` after an error notification. */
module Wrappers {

  datatype Option<+T> = None | Some(value: T)

  datatype Result<+R, +E> = Success(value: R) | Failure(error: E)
}
