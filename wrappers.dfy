/** The optional-value wrapper used for absent query parameters and failed statements. */
module Wrappers {

  datatype Option<+T> = None | Some(value: T)
}
