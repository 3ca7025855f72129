/** Failure-compatible optional value shared by every model in this project. */
module Wrappers {

  /** A value that may be absent: Python's `None`, or a C function that has no result. */
  datatype Option<+T> = None | Some(value: T)
}
