/** The optional value the C code expresses with a NULL pointer or a `false` return. */
module Wrappers {
  datatype Option<+T> = None | Some(value: T)
}
