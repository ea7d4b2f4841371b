/** Optional values and results, as the rest of the model uses them. */
module Wrappers {

  /** Python's `Optional[T]`: `None` or a value. */
  datatype Option<+T> = None | Some(value: T)

  /** A value, or the exception that the source would raise instead. */
  datatype Result<+R, +E> = Success(value: R) | Failure(error: E)
}
