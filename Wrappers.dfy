/** Option and Result: the model's stand-ins for java.util.Optional and for
    operations that either return a value or throw. */
module Wrappers {

  /** java.util.Optional: `None` is the empty Optional. */
  datatype Option<+T> = None | Some(value: T) {

    /** Optional.orElse: the held value, or `default` when empty. */
    function GetOr(default: T): T
    {
      match this
      case Some(v) => v
      case None => default
    }
  }

  /** A computation that either produced `value` or raised `error`. */
  datatype Result<+R, +E> = Success(value: R) | Failure(error: E)
}
