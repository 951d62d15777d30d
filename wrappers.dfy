/** Option and the outcome of a catalogue operation. */
module Wrappers {

  /** A value that may be absent (Python's `Optional`, `None` when absent). */
  datatype Option<+T> = None | Some(value: T) {

    /** The held value, or `default` when absent. */
    function GetOr(default: T): T {
      match this
      case Some(v) => v
      case None => default
    }
  }

  /**
   * The outcome of a movie operation: a value on success, or one of the
   * two failures the routes report (404 not found, 409 conflict).
   */
  datatype Response<+T> = Ok(value: T) | NotFound | Conflict
}
