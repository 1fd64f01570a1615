/** Optional values: Java's Optional and "nothing was found" results. */
module Wrappers {
  datatype Option<+T> = None | Some(value: T)

  /** A value, or the exception the source throws instead. */
  datatype Result<+T, +E> = Success(value: T) | Failure(error: E)
}
