/** The optional value used for JavaScript's `null` / `undefined` and for fields absent from an object. */
module Wrappers {
  datatype Option<+T> = None | Some(value: T)
}
