/** Option and Result datatypes shared by the whole model. */
module Wrappers {
  datatype Option<+T> = None | Some(value: T)

  /** `Failure` carries the message of a Go panic or error, or of a thrown JavaScript exception. */
  datatype Result<+T> = Success(value: T) | Failure(error: string)
}
