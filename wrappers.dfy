/** Optional values: a nullable pointer of the native code is an `Option`. */
module Wrappers {

  datatype Option<+T> = None | Some(value: T)
}
