/** Optional values: a nullable column, a `fetchone()` that may find nothing. */
module Wrappers {
  datatype Option<+T> = None | Some(value: T)
}
