/** Failure-carrying values shared by every module of the model. */
module Results {

  /** A value that may be absent: a missing request field, an unset attribute. */
  datatype Option<+T> = None | Some(value: T) {
    function GetOr(default: T): T {
      match this
      case Some(v) => v
      case None => default
    }
  }

  /** The outcome of a validator: the accepted value, or the error it raised. */
  datatype Result<+T, +E> = Ok(value: T) | Err(error: E)
}
