/** Failure-carrying values: the model's stand-in for JavaScript's
    `undefined` and for thrown exceptions. */
module Results {

  datatype Option<+T> = None | Some(value: T) {
    function GetOr(default: T): T {
      match this
      case Some(v) => v
      case None => default
    }
  }

  /** The value an operation returns, or the error it throws. */
  datatype Result<+T, +E> = Ok(value: T) | Err(error: E)

  /** An operation that returns nothing, or throws. */
  datatype Outcome<+E> = Pass | Fail(error: E)
}
