/** A value that may be missing: the model's stand-in for JavaScript's
    `null`/`undefined` results and for `NaN` where a division or a parse
    has no numeric answer. */
module Optional {

  datatype Option<+T> = None | Some(value: T) {

    /** The wrapped value, or `default` when there is none (JavaScript's `x || default`
        for values that are always truthy when present). */
    function GetOr(default: T): T {
      match this
      case Some(v) => v
      case None => default
    }
  }
}
