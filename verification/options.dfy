/** The optional-value type used for dictionary keys that may be absent. */
module Options {

  /** `None` stands for a key that is absent from a dictionary (or a lookup that found nothing). */
  datatype Option<+T> = None | Some(value: T) {

    /** The value, or `default` when absent: Python's `d.get(key, default)`. */
    function GetOr(default: T): T {
      match this
      case Some(v) => v
      case None => default
    }
  }
}
