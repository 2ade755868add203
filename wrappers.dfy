/** Optional values, used where the handlers look something up that may be missing. */
module Wrappers {

  datatype Option<+T> = None | Some(value: T)
}
