/** The optional value used where the program either produces something or nothing. */
module Wrappers {

  datatype Option<+T> = None | Some(value: T)
}
