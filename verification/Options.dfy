/** The result of an operation that may have none: a frame that is not free, an id that is not held, a
    record that cannot be parsed. */
module Options {
  datatype Option<+T> = None | Some(value: T)
}
