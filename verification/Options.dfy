/** A value that may be absent: a null pointer, or an optional result. */
module Options {
  datatype Option<+T> = None | Some(value: T)
}
