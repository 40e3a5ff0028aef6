/** A value that may be absent: JavaScript's `null` in the modelled code. */
module Options {

  datatype Option<+T> = None | Some(value: T)
}
