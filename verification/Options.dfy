/** A value that may be absent. */
module Options {
  datatype Option<+V> = None | Some(value: V)
}
