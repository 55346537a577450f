/** The conventional optional value, in place of a nil pointer or a nil error. */
module Options {
  datatype Option<+T> = None | Some(value: T)
}
