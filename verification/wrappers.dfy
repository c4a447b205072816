/** Optional values, used for parse results and for command-line options that may be absent. */
module Wrappers {

  datatype Option<+T> = None | Some(value: T)
}
