/** The result of a handler that may or may not call its callback. */
module Options {
  datatype Option<T> = None | Some(value: T)
}
