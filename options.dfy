/** An optional value: a nullable column, or a reading that may fail. */
module Options {
  datatype Option<+T> = None | Some(value: T)
}
