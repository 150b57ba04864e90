/** The optional value used throughout the model: JavaScript's `null`/`undefined` versus a value. */
module Wrappers {

  datatype Option<+T> = None | Some(value: T)
}
