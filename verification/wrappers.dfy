/** Failure-carrying wrappers shared by the encoder and the rotating writer. */
module Wrappers {

  /** An optional value; `None` stands for Go's `nil`. */
  datatype Option<+T> = None | Some(value: T) {

    /** Returns the value held in `Some`, or `default` for `None`. */
    function GetOr(default: T): T {
      match this
      case Some(v) => v
      case None => default
    }
  }

  /** Success with a value, or failure with an error, as a Go `(T, error)` pair. */
  datatype Result<+T, +E> = Ok(value: T) | Err(error: E) {

    predicate IsFailure() {
      Err?
    }
  }
}
