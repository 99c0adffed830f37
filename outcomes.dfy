/** Optional values and results with an error, used for every error path of the model. */
module Outcomes {

  /** A value that may be absent: Python's `None` or a pandas missing cell. */
  datatype Option<+T> = None | Some(value: T)

  /** The outcome of an operation that raises an exception on bad input. */
  datatype Result<+T, +E> = Success(value: T) | Failure(error: E)
}
