/** The Option datatype used for the source's `undefined` result. */
module Wrappers {

  datatype Option<+T> = None | Some(value: T)
}
