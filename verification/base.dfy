/** The optional-value type shared by every module of the model: Python's `None`
    versus a present value. */
module Base {

  datatype Option<+T> = None | Some(value: T) {

    /** The value, or `default` when there is none. */
    function GetOr(default: T): T {
      match this
      case Some(v) => v
      case None => default
    }
  }
}
