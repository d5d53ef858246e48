/** Option and Result types shared by every module of the model. */
module Wrappers {

  datatype Option<+T> = None | Some(value: T)

  /** The outcome of a computation that may stop with an error, as a Python
      exception or a JavaScript TypeError would stop the original program. */
  datatype Result<+T, +E> = Success(value: T) | Failure(error: E)
}
