/** A value that may be absent: SQL NULL, Python None. */
module Options {
  datatype Option<+T> = None | Some(value: T)
}
