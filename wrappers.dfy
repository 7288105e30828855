/** Optional values, used where the source returns a null pointer or a failure flag. */
module Wrappers {

  datatype Option<+T> = None | Some(value: T)
}
