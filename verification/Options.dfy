/** A value or none, for what may be missing. */
module Options {
  datatype Option<+T> = None | Some(value: T)
}
