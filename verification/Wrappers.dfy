module Wrappers {
  /** A value, or none: a null pointer, a missing entry, a failed parse. */
  datatype Option<+T> = None | Some(value: T)
}
