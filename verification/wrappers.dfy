/** Option and Result: the model's stand-ins for PHP's null and for a call
    that either returns a value or throws. */
module Wrappers {

  /** A value that may be absent (PHP null). */
  datatype Option<+T> = None | Some(value: T) {

    /** Returns the value, or `default` when absent. */
    function GetOr(default: T): T {
      match this
      case Some(v) => v
      case None => default
    }
  }

  /** The outcome of a call that may throw: a returned value or a raised failure. */
  datatype Result<+R, +E> = Ok(value: R) | Err(error: E) {

    /** Keeps a failure, replacing the value type. */
    function PropagateFailure<U>(): Result<U, E>
      requires Err?
    {
      Err(error)
    }
  }
}
