/** Optional values: `None` stands for a Java `null` (or a failed read). */
module Wrappers {

  datatype Option<+T> = None | Some(value: T)
}
