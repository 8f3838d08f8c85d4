/** Failure-carrying wrappers shared by the whole model: `Option` for a value
    that may be absent (a missing JSON key) and `Result` for an operation that
    either yields a value or raises. */
module Results {

  datatype Option<+T> = None | Some(value: T) {

    /** The held value, or `default` when absent (Python's `dict.get(key, default)`). */
    function GetOr(default: T): T {
      match this
      case Some(v) => v
      case None => default
    }
  }

  datatype Result<+T, +E> = Success(value: T) | Failure(error: E)
}
