/** Option type shared by the other modules. */
module Wrappers {

  /** Python's `None`-or-value, made explicit. */
  datatype Option<+T> = None | Some(value: T)
}
