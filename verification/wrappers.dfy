/** Optional values and outcomes that may fail with a message. */
module Wrappers {

  datatype Option<T> = None | Some(value: T)

  /** A computation that either yields a value or throws with a message,
      as `std::runtime_error` does. */
  datatype Result<T> = Success(value: T) | Failure(error: string)
}
