/** Absence, for the models of TypeScript's `undefined` and `null` and of Rust's `Option`. */
module Wrappers {
  datatype Option<T> = None | Some(value: T)
}
