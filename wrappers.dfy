/** The optional value used wherever the source works with a pointer that may be null. */
module Wrappers {
  datatype Option<+T> = None | Some(value: T)
}
