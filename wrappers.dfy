/** The optional value the store returns (std::optional in the source). */
module Wrappers {
  datatype Option<+T> = None | Some(value: T)
}
