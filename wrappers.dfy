/** Optional values, standing in for the source's nullable pointers and std::optional. */
module Wrappers {
  datatype Option<T> = None | Some(value: T)
}
