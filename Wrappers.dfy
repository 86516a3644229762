/** Optional values: a C pointer that may be NULL, a token that may be missing. */
module Wrappers {

  datatype Option<+T> = None | Some(value: T)
}
