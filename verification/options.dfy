/** The optional value used throughout the model: Python's `None` (and the
    `NaN` pandas writes for a missing cell) is `None`, anything else `Some`. */
module Options {

  datatype Option<+T> = None | Some(value: T) {

    /** The value, or `default` when there is none (`dict.get(key, default)`). */
    function GetOr(default: T): T {
      match this
      case Some(v) => v
      case None => default
    }
  }
}
