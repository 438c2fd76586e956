/** The two result types the models share. */
module Wrappers {
  datatype Option<+T> = None | Some(value: T)

  datatype Result<+T> = Success(value: T) | Failure(error: string)

  /** The outcome of an operation without a value. */
  datatype Outcome = Pass | Fail(error: string)
}
