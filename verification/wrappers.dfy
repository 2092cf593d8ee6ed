/** The optional value used throughout the model for JavaScript's `null`,
    `undefined` and "no match". */
module Wrappers {

  datatype Option<T> = None | Some(value: T)
}
