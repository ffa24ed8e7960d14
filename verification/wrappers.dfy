/** Option and Result values used by the move engine for its "no square" and rejected-move cases. */
module Wrappers {

  datatype Option<+T> = None | Some(value: T)

  datatype Result<+R, +E> = Success(value: R) | Failure(error: E)
}
