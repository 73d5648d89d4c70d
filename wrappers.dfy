/** The optional value used for "no output" results throughout the model. */
module Wrappers {
  datatype Option<+T> = None | Some(value: T)
}
