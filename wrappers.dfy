/** The optional value used for JavaScript's `null` slots. */
module Wrappers {
  datatype Option<+T> = None | Some(value: T)
}
