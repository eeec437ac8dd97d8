/** The optional value used where the source accepts a null reference. */
module Wrappers {

  datatype Option<+T> = None | Some(value: T)
}
