/** Values that JavaScript code may leave `null` or `undefined`. */
module Options {

  datatype Option<+T> = None | Some(value: T) {
    /** `o ?? default`. */
    function GetOr(default: T): T {
      match this
      case Some(v) => v
      case None => default
    }
  }
}
