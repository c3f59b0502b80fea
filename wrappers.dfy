/** The optional-value wrapper used for lookups that may fail and for parses that may be rejected. */
module Wrappers {

  datatype Option<+T> = None | Some(value: T)
}
