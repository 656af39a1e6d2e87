/** Option and Result types shared by every module of the model. */
module Base {

  /** A value that may be absent: JavaScript's `null`/`undefined`. */
  datatype Option<+T> = None | Some(value: T) {

    /** The value, or `default` when absent. */
    function GetOr(default: T): T {
      match this
      case Some(v) => v
      case None => default
    }
  }

  /** The outcome of an operation that may throw before changing anything. */
  datatype Result<+T, +E> = Success(value: T) | Failure(error: E)
}
