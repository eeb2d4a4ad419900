/** Optional values: `None` stands for the C# `null` of a nullable property or a failed parse. */
module Wrappers {

  datatype Option<+T> = None | Some(value: T)

}
