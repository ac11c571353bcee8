/** Option stands in for a `nullable` Objective-C object argument. */
module Wrappers {

  datatype Option<+T> = None | Some(value: T)
}
