/** The optional value used wherever the program tests a value for presence. */
module Wrappers {

  datatype Option<+T> = None | Some(value: T)
}
