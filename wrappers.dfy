/** The optional value used where the source has `null` or a failed parse. */
module Wrappers {
  datatype Option<+T> = None | Some(value: T)
}
