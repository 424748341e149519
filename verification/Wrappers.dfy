/** The two small result types the other modules share. */
module Wrappers {

  datatype Option<+T> = None | Some(value: T) {
    function GetOr(default: T): T {
      if Some? then value else default
    }
  }

  /** Go's `(value, error)` pair, with the error kept as a value of its own type. */
  datatype Result<+T, +E> = Ok(value: T) | Err(error: E)
}
