/** The optional value used for SQL NULL and for Python's None. */
module Options {
  datatype Option<T> = None | Some(value: T)
}
