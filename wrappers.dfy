/** Optional values: the model's stand-in for a nullable reference or `Nullable<T>`. */
module Wrappers {

  datatype Option<+T> = None | Some(value: T)
}
