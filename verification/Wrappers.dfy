/** The result type shared by all parts: a value, or its absence where the source throws or finds nothing. */
module Wrappers {

  datatype Option<+T> = None | Some(value: T)
}
