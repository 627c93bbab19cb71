/** Option and Result values standing in for the source's `null` returns and
    thrown HTTP exceptions. */
module Wrappers {

  /** `T | null` (and `T | undefined`) in the source. */
  datatype Option<+T> = None | Some(value: T) {

    /** The value, or `default` when absent: the source's `x ?? default`. */
    function GetOr(default: T): T {
      match this
      case Some(v) => v
      case None => default
    }
  }

  /** The exceptions the services and the store raise. */
  datatype Error =
    | NotFound        // NotFoundException, HTTP 404
    | Conflict        // ConflictException, HTTP 409
    | RecordMissing   // the store's own "record to update/delete not found" error

  /** A service call either returns a value or raises one of the errors above. */
  datatype Result<+T> = Success(value: T) | Failure(error: Error) {

    predicate IsFailure() {
      Failure?
    }

    function PropagateFailure<U>(): Result<U>
      requires Failure?
    {
      Failure(error)
    }

    function Extract(): T
      requires Success?
    {
      value
    }
  }
}
