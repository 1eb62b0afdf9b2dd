/** An optional value and a value-or-error result, used throughout the model:
    the optional value stands for a JavaScript value that may be `null`, and
    the result for a callback invoked as `callback(null, v)` or `callback(err)`. */
module Wrappers {

  datatype Option<+T> = None | Some(value: T) {

    /** The value, or `default` when absent. */
    function GetOr(default: T): T {
      match this
      case Some(v) => v
      case None => default
    }
  }

  datatype Result<+T, +E> = Ok(value: T) | Err(error: E)
}
