/** Values that may be absent: a null or undefined field of the source. */
module Options {

  datatype Option<+T> = None | Some(value: T) {

    /** The value, or `default` if there is none. */
    function GetOr(default: T): T {
      if Some? then value else default
    }
  }
}
