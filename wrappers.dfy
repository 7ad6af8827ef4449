/** Failure-compatible optional values, used for lookups that may find nothing
    and for the partial IDNA encoder. */
module Wrappers {

  datatype Option<+T> = None | Some(value: T)

}
