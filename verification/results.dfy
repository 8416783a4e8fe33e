/** Failure-compatible wrappers used throughout the model: an optional
    value (a dictionary key that may be absent) and a result that is either
    a value or the error the decoder raises. */
module Results {

  /** A value that may be missing, as with `dict.get` returning `None`. */
  datatype Option<+T> = None | Some(value: T) {

    /** The value, or `default` when it is missing (`dict.get(key, default)`). */
    function GetOr(default: T): T {
      match this
      case Some(v) => v
      case None => default
    }
  }

  /** Either a computed value or the error that aborts the computation. */
  datatype Result<+T, +E> = Success(value: T) | Failure(error: E) {

    predicate IsFailure() {
      Failure?
    }

    function PropagateFailure<U>(): Result<U, E>
      requires Failure?
    {
      Failure(error)
    }

    function Extract(): T
      requires Success?
    {
      value
    }
  }
}
