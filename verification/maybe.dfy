/** The optional value used wherever the source uses `undefined`, `null` or a
    missing key. */
module Maybe {

  datatype Option<T> = None | Some(value: T) {

    /** The carried value, or `default` when there is none. */
    function GetOr(default: T): T {
      match this
      case Some(v) => v
      case None => default
    }
  }
}
