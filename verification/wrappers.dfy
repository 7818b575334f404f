/** The optional value used for "a row was recognised" and "the pattern was found". */
module Wrappers {

  datatype Option<+T> = None | Some(value: T)
}
