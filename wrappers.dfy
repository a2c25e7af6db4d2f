/** The optional value a lookup may or may not produce (JavaScript's `null` results). */
module Wrappers {

  datatype Option<+T> = None | Some(value: T)
}
