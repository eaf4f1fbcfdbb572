/** A cell value that may be missing. After numeric coercion pandas marks a
    missing or unparseable cell with NaN; here that is `None`, so that exact
    comparison and arithmetic on the present values need no IEEE caveats. */
module Options {

  datatype Option<+T> = None | Some(value: T) {

    /** The value, or `default` when missing. */
    function GetOr(default: T): T {
      match this
      case Some(v) => v
      case None => default
    }
  }

  /** The outcome of a step that can fail with an error that pandas raises. */
  datatype Result<+T, +E> = Ok(value: T) | Err(error: E)
}
