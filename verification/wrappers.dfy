/** Option, standing for a JavaScript slot that may hold `undefined`. */
module Wrappers {

  datatype Option<+T> = None | Some(value: T)
}
