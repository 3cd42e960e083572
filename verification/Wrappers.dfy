/** What the modelled operations return. */
module Wrappers {

  /** The source's 0 and 1. */
  datatype Status = Success | Failure

  datatype Option<T> = None | Some(value: T)
}
