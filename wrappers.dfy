/** The optional-value datatype used for nullable state and absent stored data. */
module Wrappers {
  datatype Option<+T> = None | Some(value: T)
}
