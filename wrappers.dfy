/** The optional value shared by the parser, the resolver and the capacity calculator. */
module Wrappers {

  /** A value that may be absent: a missing date, a failed parse. */
  datatype Option<+T> = None | Some(value: T)
}
