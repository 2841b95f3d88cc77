/** Option and Result values used for the error paths of the modelled code. */
module Wrappers {
  datatype Option<+T> = None | Some(value: T)

  /** A computed value, or the message of the exception the PHP code throws. */
  datatype Result<+T> = Success(value: T) | Failure(error: string)
}
