/** A value that may be absent: an `undefined` property of a JavaScript object. */
module Wrappers {

  datatype Option<+T> = None | Some(value: T)
}
