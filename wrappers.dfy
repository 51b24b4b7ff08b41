/** The optional-value type used for every "this can fail" result of the model. */
module Wrappers {

  datatype Option<+T> = None | Some(value: T)
}
