/** A value that may be missing: a null column, a lookup that finds nothing. */
module Options {

  datatype Option<+T> = None | Some(value: T) {
    function GetOr(default: T): T { if Some? then value else default }
  }
}
