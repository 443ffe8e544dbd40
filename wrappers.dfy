/** The outcome of an operation that may throw: `None` stands for the thrown exception. */
module Wrappers {
  datatype Option<+T> = None | Some(value: T)
}
