/** The optional value used wherever the modelled code returns None / null. */
module Options {

  datatype Option<+T> = None | Some(value: T) {

    /** The value, or `default` when absent (Python's `x if x else default`). */
    function GetOr(default: T): T
    {
      match this
      case Some(v) => v
      case None => default
    }
  }
}
