/** The absent-or-present value used wherever the component tests a value for `undefined`. */
module Wrappers {

  datatype Option<+T> = None | Some(value: T)
}
