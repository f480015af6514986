/** Optional values, for the places where the source returns `None` or `-1`. */
module Wrappers {
  datatype Option<T> = None | Some(value: T)
}
