/** Optional values: the source's `T | undefined` / `T | null` fields and failed fetches. */
module Wrappers {

  datatype Option<+T> = None | Some(value: T)
}
