/** The optional value the store uses for nullable JavaScript values. */
module Options {
  datatype Option<+T> = None | Some(value: T)
}
