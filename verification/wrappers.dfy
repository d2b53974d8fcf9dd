/** Failure-compatible optional value, used for "no match" and "no such record". */
module Wrappers {

  datatype Option<+T> = None | Some(value: T)
}
