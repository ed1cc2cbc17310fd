/** The source's nullable values (`T | null`, `undefined` from `find`) as an explicit option. */
module Optional {

  datatype Option<+T> = None | Some(value: T) {

    /** Returns the value in Some, or `default` when None. */
    function GetOr(default: T): T {
      match this
      case Some(v) => v
      case None => default
    }
  }
}
