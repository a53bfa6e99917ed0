/** Option and Result, the two wrappers the model uses for JavaScript's
    `null` results and for thrown errors. */
module Wrappers {

  /** `None` stands for JavaScript's `null`. */
  datatype Option<+T> = None | Some(value: T)

  /** `Failure` stands for an exception that aborts the operation. */
  datatype Result<+R, +E> = Success(value: R) | Failure(error: E)
}
