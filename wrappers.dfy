/** Optional values: an absent session key, an absent file, an absent error. */
module Wrappers {
  datatype Option<+T> = None | Some(value: T)
}
