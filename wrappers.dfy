/** The optional value used where the script stores `null` or a value. */
module Wrappers {

  datatype Option<+T> = None | Some(value: T)
}
