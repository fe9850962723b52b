/** The optional value used for JavaScript's `undefined` and SQL's NULL. */
module Wrappers {

  datatype Option<+T> = None | Some(value: T)
}
