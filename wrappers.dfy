/** Option type shared by the table modules. */
module Wrappers {
  datatype Option<+T> = None | Some(value: T)
}
