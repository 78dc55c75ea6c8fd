/** The optional value used for a node's parent link and for searches that may find nothing. */
module Wrappers {
  datatype Option<+T> = None | Some(value: T)
}
