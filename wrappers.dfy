/** The optional value: `null` or a value, in the program's terms. */
module Wrappers {
  datatype Option<+T> = None | Some(value: T)
}
