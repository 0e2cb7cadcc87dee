/** Failure-carrying datatypes shared by the whole model.
    - Option<T> stands for a Java reference that may be null.
    - Result<T, E> is the outcome of a call that either returns a value or throws.
    - Outcome<E> is the outcome of a void call that may throw. */
module Wrappers {

  datatype Option<+T> = None | Some(value: T) {

    /** The wrapped value, or `default` when this is None. */
    function GetOr(default: T): T {
      match this
      case Some(v) => v
      case None => default
    }
  }

  datatype Result<+T, +E> = Ok(value: T) | Err(error: E)

  datatype Outcome<+E> = Pass | Fail(error: E)
}
