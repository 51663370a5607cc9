/** The optional result both caches return: a stored value or a miss. */
module Wrappers {

  /** `Some(value)` for a hit, `None` for a miss; a stored value is never confused with a miss. */
  datatype Option<+T> = None | Some(value: T)
}
