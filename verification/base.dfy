/** Option and Result, shared by every module of the scraper model. */
module Base {

  /** A value that may be missing: a tag or attribute the document lacks. */
  datatype Option<+T> = None | Some(value: T) {

    /** The value, or `default` when missing (Python's `x or default`). */
    function GetOr(default: T): T {
      match this
      case Some(v) => v
      case None => default
    }
  }

  /** Either a value or an error: the model of a Python function that may raise. */
  datatype Result<+T, +E> = Ok(value: T) | Err(error: E)
}
