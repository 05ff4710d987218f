/** The optional-value datatype used by the string helpers and the relay. */
module Wrappers {

  datatype Option<+T> = None | Some(value: T)
}
