/** The optional value used where the program has a nullable or a failing step. */
module Wrappers {

  datatype Option<+T> = None | Some(value: T)
}
