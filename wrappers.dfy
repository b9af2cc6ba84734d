/** The optional value the engine uses for Python's `None`. */
module Wrappers {
  datatype Option<+T> = None | Some(value: T)
}
