/** A value that may be missing: what the C code returns as NULL or 0. */
module Options {
  datatype Option<+T> = None | Some(value: T)
}
