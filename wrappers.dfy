/** Optional values, standing for the `T | undefined` and `T | null` types of the client. */
module Wrappers {

  datatype Option<+T> = None | Some(value: T)
}
