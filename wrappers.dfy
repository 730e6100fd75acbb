/** Failure-carrying wrappers shared by the modules of this model. */
module Wrappers {

  /** An optional value: `Option<T>` in the Rust source. */
  datatype Option<+T> = None | Some(value: T) {

    /** `unwrap_or(default)` */
    function GetOr(default: T): (r: T)
      ensures Some? ==> r == value
      ensures None? ==> r == default
    {
      match this
      case Some(v) => v
      case None => default
    }
  }

  /** The outcome of an operation that may fail: `Result<T, E>` in the Rust source. */
  datatype Result<+T, +E> = Ok(value: T) | Err(error: E)
}
