/** Option, for Python's `Optional` node references and return values. */
module Wrappers {
  datatype Option<+T> = None | Some(value: T)
}
