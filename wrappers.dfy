/** The optional-value type used for pandas' missing values and absent results. */
module Wrappers {

  datatype Option<+T> = None | Some(value: T)
}
