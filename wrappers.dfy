/** The optional value used for PHP's nullable types (`?int`, `null|LogEntry`) and the `??` operator. */
module Wrappers {

  datatype Option<+T> = None | Some(value: T) {

    /** PHP's `$x ?? $default` once `$x` is known to be present-or-null */
    function GetOr(default: T): T {
      match this
      case Some(v) => v
      case None => default
    }
  }
}
