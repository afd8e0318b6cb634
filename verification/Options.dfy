/** The optional result of a partial computation. */
module Options {
  datatype Option<+T> = None | Some(value: T)
}
