/** The conventional Option datatype: a present value or nothing. */
module Wrappers {
  datatype Option<+T> = None | Some(value: T)
}
