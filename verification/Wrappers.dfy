/** Failure-carrying results used throughout the project. */
module Wrappers {

  datatype Option<+T> = None | Some(value: T)
}
