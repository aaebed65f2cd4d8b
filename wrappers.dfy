/** Option, used for every step that can run out of samples. */
module Wrappers {
  datatype Option<+T> = None | Some(value: T)
}
