/** The optional value used where the C code leaves a variable unset or a pointer NULL. */
module Wrappers {

  datatype Option<+T> = None | Some(value: T)
}
