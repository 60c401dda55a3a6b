/** Failure-carrying results: the Java code signals misuse by throwing an
    IllegalArgumentException and "no solution" by returning null. */
module Wrappers {

  datatype Option<+T> = None | Some(value: T)

  datatype Result<+T, +E> = Success(value: T) | Failure(error: E) {
    predicate IsFailure() {
      Failure?
    }
  }
}
