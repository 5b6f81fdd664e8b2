/** Optional values: `None` stands for Java's `null` and for an operation that threw. */
module Wrappers {

  datatype Option<+T> = None | Some(value: T)
}
