module Options {
  /** A value that may be missing: a NULL pointer, or a variable that has not been assigned. */
  datatype Option<+T> = None | Some(value: T)
}
