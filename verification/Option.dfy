/** A value that may be missing: JavaScript's `null`, `undefined` or an unparsable number. */
module Option {

  datatype Option<+T> = None | Some(value: T)
}
