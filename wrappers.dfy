/** The optional value used where the script works with `null`. */
module Wrappers {
  datatype Option<+T> = None | Some(value: T)
}
