/** Optional values, used for fields a stored document may lack and for parsers that may fail. */
module Wrappers {

  datatype Option<+T> = None | Some(value: T)
}
