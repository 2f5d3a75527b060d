/** The optional value used where the reader may leave an out-parameter untouched. */
module Wrappers {
  datatype Option<+T> = None | Some(value: T)
}
