/** Optional values and results, used where the source returns `Option`
    or panics on a condition its caller can provoke. */
module Wrappers {

  datatype Option<+T> = None | Some(value: T)

  datatype Result<+R, +E> = Success(value: R) | Failure(error: E)
}
