/** A value that may be missing: NULL, None, or a failed step. */
module Options {
  datatype Option<+T> = None | Some(value: T)
}
