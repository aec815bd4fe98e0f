/** Optional values, used for the source's "no match" and "parse failed" outcomes. */
module Wrappers {
  datatype Option<+T> = None | Some(value: T)
}
