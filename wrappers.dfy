/** The missing-value wrapper used for every nullable column of the table. */
module Wrappers {

  /** `None` is a missing value (NaN, NaT or pandas NA); `Some(v)` a present one. */
  datatype Option<+T> = None | Some(value: T)
}
