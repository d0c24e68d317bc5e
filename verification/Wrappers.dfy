/** Optional values, as used wherever the sources return nil, null or undefined. */
module Wrappers {
  datatype Option<+T> = None | Some(value: T)
}
