/** The usual container of at most one value. */
module Wrappers {
  datatype Option<+T> = None | Some(value: T)
}
