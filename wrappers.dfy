/** Optional values and success/failure results, standing in for Java's
    `Optional` and for exceptions thrown by the services. */
module Wrappers {

  datatype Option<+T> = None | Some(value: T)

  datatype Result<+R, +E> = Success(value: R) | Failure(error: E)
}
