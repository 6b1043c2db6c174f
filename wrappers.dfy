/** The optional value that stands for TypeScript's `null | X` fields. */
module Wrappers {

  datatype Option<+T> = None | Some(value: T)
}
