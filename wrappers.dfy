/** An optional value: the model's "none found" outcome. */
module Wrappers {
  datatype Option<+T> = None | Some(value: T)
}
