/** Optional values, standing in for Go's nil-able interface values. */
module Wrappers {

  datatype Option<+T> = None | Some(value: T)

}
