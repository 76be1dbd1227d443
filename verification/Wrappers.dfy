/** Shared value types and the error numbers the drivers return. */
module Wrappers {

  datatype Option<+T> = None | Some(value: T)

  const EBUSY: int := 16
  const EEXIST: int := 17
  const EINVAL: int := 22
  const ENOSPC: int := 28
}
