/** A cell of the complaint table that may be missing (pandas NaN / None). */
module Optional {

  datatype Option<+T> = None | Some(value: T) {

    /** The value, or `default` when the cell is missing. */
    function GetOr(default: T): T {
      match this
      case Some(v) => v
      case None => default
    }
  }
}
