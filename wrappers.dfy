/** Optional values, for the fields the handlers probe for and the operations that may throw. */
module Wrappers {

  datatype Option<+T> = None | Some(value: T)
}
