/** The optional value returned by a search. */
module Wrappers {

  datatype Option<+T> = None | Some(value: T)
}
