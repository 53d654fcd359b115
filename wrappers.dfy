/** Optional values and fallible results, as returned by the library's operations. */
module Wrappers {
  datatype Option<T> = None | Some(value: T)

  datatype Result<T, E> = Success(value: T) | Failure(error: E)
  {
    predicate IsFailure() { Failure? }
  }

  /** The outcome of an operation that returns `Result<()>`. */
  datatype Outcome<E> = Pass | Fail(error: E)
}
