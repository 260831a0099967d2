/** Optional values and results with an error message, used wherever the
    source returns None or raises. */
module Wrappers {

  datatype Option<T> = None | Some(value: T) {
    function UnwrapOr(default: T): T {
      match this
      case Some(v) => v
      case None => default
    }
  }

  datatype Result<T> = Success(value: T) | Failure(error: string) {
    predicate IsFailure() {
      Failure?
    }
  }
}
