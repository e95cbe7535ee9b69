/** An optional value, used across the model for JavaScript's `null`
    where the source returns or passes one. */
module Wrappers {

  datatype Option<+T> = None | Some(value: T)
}
