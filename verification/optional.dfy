/** The optional value that stands for the runtime's NULL pointers: an absent
    translation, an absent singular table and an absent plural rule. */
module Optional {

  datatype Option<+T> = None | Some(value: T) {

    /** The wrapped value, or `default` when there is none. */
    function GetOr(default: T): T {
      match this
      case Some(v) => v
      case None => default
    }
  }
}
