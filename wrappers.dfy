/** The usual optional value, standing for Python's `None` and for an exception path. */
module Wrappers {
  datatype Option<+T> = None | Some(value: T)
}
