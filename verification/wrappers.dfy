/** The optional-value datatype used for JavaScript's `undefined`-able values. */
module Wrappers {

  datatype Option<+T> = None | Some(value: T)
}
