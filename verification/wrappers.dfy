/** The absent-or-present value used where the widget's JavaScript returns `null`. */
module Wrappers {

  datatype Option<+T> = None | Some(value: T)
}
