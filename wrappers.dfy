/** The optional-value datatype used for Java's nullable strings and for
    computations that may throw. */
module Wrappers {
  datatype Option<+T> = None | Some(value: T)
}
