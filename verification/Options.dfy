/** A value that may be absent: a missing field, or the result of an operation that can fail. */
module Options {
  datatype Option<+T> = None | Some(value: T)
}
