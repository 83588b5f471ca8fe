/** A value that may be missing: JavaScript's `undefined` for a property read,
    or `null` for a nullable field. */
module Wrappers {
  datatype Option<+T> = None | Some(value: T)
}
