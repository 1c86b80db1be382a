/** The optional-value datatype shared by the other modules: a JSON field that may be
    absent, and the outcome of a scan that may find nothing. */
module Wrappers {

  datatype Option<+T> = None | Some(value: T)
}
