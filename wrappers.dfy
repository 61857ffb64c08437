module Wrappers {
  /** A Java reference that may be null. */
  datatype Option<T> = None | Some(value: T)
}
