/** The Option datatype used across the model for "a value or nothing"
    (a NULL pointer, a missing table entry, a failed parse). */
module Wrappers {

  datatype Option<+T> = None | Some(value: T)
}
