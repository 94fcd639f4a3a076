/** The outcome of a lookup: a found value, or nothing (the C code's null pointer). */
module Options {

  datatype Option<T> = None | Some(value: T) {

    /** The found value, or `default` when there is none. */
    function GetOr(default: T): T {
      match this
      case Some(v) => v
      case None => default
    }
  }
}
