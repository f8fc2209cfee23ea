/** Optional values: an outcome that may be absent (a rejected query, a failed request). */
module Wrappers {
  datatype Option<+T> = None | Some(value: T)
}
