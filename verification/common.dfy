/** Small failure-carrying datatypes shared by the other modules. */
module Common {

  /** A value that may be absent, as Rust's `Option`. */
  datatype Option<T> = None | Some(value: T) {

    /** The carried value, or `default` when there is none (`unwrap_or`). */
    function GetOr(default: T): (r: T)
      ensures Some? ==> r == value
      ensures None? ==> r == default
    {
      match this
      case Some(v) => v
      case None => default
    }
  }

  /** Success or failure, as Rust's `Result`. */
  datatype Result<T, E> = Ok(value: T) | Err(error: E)
}
