/** A value that may be missing: the error returns and not-found results of the source. */
module Options {
  datatype Option<T> = None | Some(value: T)
}
