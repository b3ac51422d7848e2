/** The optional value used where the source returns or stores `None`. */
module Wrappers {
  datatype Option<+T> = None | Some(value: T)
}
