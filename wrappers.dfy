/** The optional value used wherever the source has `undefined` or a call that may not happen. */
module Wrappers {
  datatype Option<+T> = None | Some(value: T)
}
