/** The optional value used throughout the model for "absent" (`undefined`) and for "the call threw". */
module Wrappers {
  datatype Option<T> = None | Some(value: T)
}
