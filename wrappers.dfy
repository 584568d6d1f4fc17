/** Optional values, used for C pointers that may be NULL and Python values that may be None. */
module Wrappers {
  datatype Option<T> = None | Some(value: T)
}
