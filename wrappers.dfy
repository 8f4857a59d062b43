/** The optional value used wherever the page stores `null` or a value. */
module Wrappers {
  datatype Option<+T> = None | Some(value: T)
}
