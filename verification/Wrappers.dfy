/** The optional and fallible results used throughout the model. */
module Wrappers {

  /** std::optional / boost::optional, and the result of an operation that may throw. */
  datatype Option<+T> = None | Some(value: T)
}
