/** Optional values, used wherever the sources use `None`, a null result or a -1 result. */
module Wrappers {
  datatype Option<+T> = None | Some(value: T)
}
