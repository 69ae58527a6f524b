/** Optional values: Ruby's `nil` where the source uses it as "absent". */
module Wrappers {

  datatype Option<+T> = None | Some(value: T)
}
