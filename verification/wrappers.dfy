/** Optional values, used where the source yields `None` or finds nothing. */
module Wrappers {
  datatype Option<+T> = None | Some(value: T)
}
