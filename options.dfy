/** The optional value of JavaScript: `undefined` (None) or a present value. */
module Options {

  datatype Option<+T> = None | Some(value: T) {

    /** `x || d`-style defaulting: the value when present, else `default`. */
    function GetOr(default: T): T
    {
      match this
      case Some(v) => v
      case None => default
    }
  }
}
