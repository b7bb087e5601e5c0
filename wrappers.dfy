/** Optional values, used where the source returns None or falls back. */
module Wrappers {
  datatype Option<+T> = None | Some(value: T)
}
