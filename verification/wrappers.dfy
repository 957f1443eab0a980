/** The optional-value type used for "no hit", "no axis" and similar absences. */
module Wrappers {

  datatype Option<+T> = None | Some(value: T)
}
