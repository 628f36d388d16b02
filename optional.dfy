/** A nullable value: SQL NULL, a missing JSON key, JavaScript `null`/`undefined`. */
module Optional {

  datatype Option<T> = None | Some(value: T) {

    /** The value, or `default` when there is none (Python `x if x else d`, JS `x || d` on non-falsy values). */
    function GetOr(default: T): T {
      match this
      case Some(v) => v
      case None => default
    }
  }
}
