/** Optional values, used for "no packet", "no acknowledgement" and "no command". */
module Wrappers {
  datatype Option<+T> = None | Some(value: T)
}
