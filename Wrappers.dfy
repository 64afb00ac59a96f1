/** Optional values: a DOM lookup or a FormData entry that may be absent. */
module Wrappers {

  datatype Option<+T> = None | Some(value: T)
}
