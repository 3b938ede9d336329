/** The optional value used for C results that may be NULL or absent. */
module Options {
  datatype Option<T> = None | Some(value: T)
}
