/** Optional values, used for fields that may be absent or non-numeric. */
module Wrappers {

  datatype Option<+T> = None | Some(value: T)
}
