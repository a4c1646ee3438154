/** Optional values and results with an error, for the places where the
    Python code either has no value yet (`None`) or raises. */
module Outcome {

  datatype Option<+T> = None | Some(value: T)

  datatype Result<+T, +E> = Success(value: T) | Failure(error: E)
}
