/** Optional values, standing in for std::optional and std::string::npos. */
module Wrappers {
  datatype Option<+T> = None | Some(value: T)
}
