/** Optional values, used for absent attributes, missing `end` markers and failed searches. */
module Wrappers {
  datatype Option<+T> = None | Some(value: T)
}
