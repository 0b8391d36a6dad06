/** The usual optional value, for pointers that may be null and lookups that may fail. */
module Options {
  datatype Option<+T> = None | Some(value: T)
}
