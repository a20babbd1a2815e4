/** The optional value used for the checkers' "nothing found" and "could not read" cases. */
module Wrappers {

  datatype Option<+T> = None | Some(value: T)
}
