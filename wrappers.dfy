/** The optional value used wherever the reporter's JavaScript yields either a value or nothing. */
module Wrappers {
  datatype Option<+T> = None | Some(value: T)
}
