/** Option and Result, the two failure-carrying values used throughout the model. */
module Wrappers {

  datatype Option<+T> = None | Some(value: T)

  /** `Failure` stands for a Python exception raised by the modelled code. */
  datatype Result<+T> = Success(value: T) | Failure(error: string)
}
