/** Optional values and the way a remote call settles. */
module Wrappers {

  /** A value that may be absent (`null` or `undefined` on the client). */
  datatype Option<+T> = None | Some(value: T)

  /** How the promise returned by a remote call settles: fulfilled with its payload, or rejected. */
  datatype Settled<+T> = Fulfilled(value: T) | Rejected
}
