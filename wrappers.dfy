/** The optional value used where the source leaves a field `undefined`. */
module Wrappers {

  datatype Option<+T> = None | Some(value: T)
}
