/** A value that may be missing: a null pointer, a failed call, a key without an entry. */
module Options {
  datatype Option<+T> = None | Some(value: T)
}
