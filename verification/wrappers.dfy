/** Failure-compatible optional value, used where the script would raise. */
module Wrappers {

  datatype Option<+T> = None | Some(value: T)

}
