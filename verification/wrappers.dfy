/** Optional values: `None` plays the role of a Java `null` reference. */
module Wrappers {

  datatype Option<+T> = None | Some(value: T)
}
