/** Optional values, standing for Go's nil and for (value, ok) returns. */
module Wrappers {

  datatype Option<+T> = None | Some(value: T)
}
