/** The optional-value wrapper used for lookups that may find nothing. */
module Wrappers {

  /** `None` stands for a C `NULL` result or an unset value. */
  datatype Option<+T> = None | Some(value: T)
}
