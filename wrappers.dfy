/** Optional values: an absent JSON field or query parameter, a filter that was not supplied. */
module Wrappers {

  datatype Option<+T> = None | Some(value: T)
}
