/** An optional value. The form uses it for a field the user has not set
    (`undefined` or `null` in the browser), and for a field's error message
    when the field currently has none. */
module Wrappers {

  datatype Option<+T> = None | Some(value: T) {

    /** The carried value, or `default` when there is none. The form uses it
        for `message || ''`; an empty message gives "" either way. */
    function GetOr(default: T): (r: T)
      ensures Some? ==> r == value
      ensures None? ==> r == default
    {
      if Some? then value else default
    }
  }
}
