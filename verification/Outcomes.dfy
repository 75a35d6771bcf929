/** Optional values and results that carry an error, for the scripts' `undefined` and thrown errors. */
module Outcomes {
  datatype Option<+T> = None | Some(value: T)
  datatype Result<+T, +E> = Success(value: T) | Failure(error: E)
}
