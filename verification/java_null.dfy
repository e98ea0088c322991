/**
  Values that may be absent. The model uses `None` for a Java `null`
  reference (a null URL, a null header map) and for a segment that yields
  no key/value pair.
*/
module JavaNull {

  datatype Option<+T> = None | Some(value: T) {

    /** Java's `x == null ? fallback : x`. */
    function OrElse(fallback: T): T {
      if None? then fallback else value
    }
  }
}
