/** Optional values, for the parsers that invert the key rendering. */
module Wrappers {

  datatype Option<+T> = None | Some(value: T)
}
