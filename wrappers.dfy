/** Optional values (JavaScript's `undefined`) and results (a value or a thrown error). */
module Wrappers {
  datatype Option<+T> = None | Some(value: T)

  datatype Result<+T, +E> = Success(value: T) | Failure(error: E)
}
