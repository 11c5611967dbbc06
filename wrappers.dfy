/** Optional values: a DOM lookup that may find nothing, a timer handle that may be null. */
module Wrappers {
  datatype Option<+T> = None | Some(value: T)
}
