/** Optional values (a Java reference that may be null) and results of operations that can throw. */
module Wrappers {

  /** A value that may be absent, as a nullable Java reference. */
  datatype Option<T> = None | Some(value: T)

  /** The outcome of an operation that either completes or throws. */
  datatype Result<T, E> = Success(value: T) | Failure(error: E)

  /** The outcome of a void operation that either completes or throws. */
  datatype Outcome<E> = Done | Fail(error: E)
}
