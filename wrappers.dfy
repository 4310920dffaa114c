/** The optional value used for every step of the program that can fail. */
module Wrappers {

  datatype Option<+T> = None | Some(value: T)
}
