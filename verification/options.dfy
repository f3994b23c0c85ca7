/** The optional value shared by the device and server models: a JavaScript
    `undefined`, a thrown parse, a failed query's error. */
module Options {

  datatype Option<+T> = None | Some(value: T) {

    /** The held value, or `default` for `None`: JavaScript's `?? default`. */
    function GetOr(default: T): T {
      match this
      case Some(v) => v
      case None => default
    }
  }
}
