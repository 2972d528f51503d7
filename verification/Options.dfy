/** A value that may be missing: a null pointer, a failed parse, an iterator that is not on an entry. */
module Options {
  datatype Option<+T> = None | Some(value: T)
}
