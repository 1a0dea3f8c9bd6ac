/** The Option datatype used to say whether a callable can be invoked at all. */
module Wrappers {

  datatype Option<+T> = None | Some(value: T)
}
