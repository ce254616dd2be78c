/** An optional value, shared by the other modules. */
module Wrappers {

  /** A value that may be missing: Python's "falsy / None" results. */
  datatype Option<+T> = None | Some(value: T)
}
