/** Optional values, standing in for Java's null returns and failed matches. */
module Wrappers {

  datatype Option<+T> = None | Some(value: T)
}
