/** Optional values: a null node pointer is `None`. */
module Wrappers {

  datatype Option<+T> = None | Some(value: T)
}
