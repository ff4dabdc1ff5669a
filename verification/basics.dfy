/** Small shared vocabulary: an optional value, standing in for JavaScript's
    `undefined` and Kotlin's nullable results. */
module Basics {

  datatype Option<+T> = None | Some(value: T) {

    /** The wrapped value, or `default` when there is none (JavaScript `x || d`
        on a value that is either present or undefined). */
    function GetOr(default: T): T {
      match this
      case Some(v) => v
      case None => default
    }
  }
}
