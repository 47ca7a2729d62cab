/** Optional values, standing in for the nullable columns and the
    "not found" results of the timeline application. */
module Wrappers {

  datatype Option<+T> = None | Some(value: T)
}
