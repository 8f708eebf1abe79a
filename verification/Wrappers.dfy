module Wrappers {

  /** A value that may be missing, as for the source's null references. */
  datatype Option<+T> = None | Some(value: T)
}
