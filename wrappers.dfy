/** The optional value used for the embedding provider's answer and for
    Python's index lookups that may raise. */
module Wrappers {

  datatype Option<+T> = None | Some(value: T)
}
