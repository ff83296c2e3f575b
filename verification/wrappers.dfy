/** The optional-value datatype used by the unitarity resolver. */
module Wrappers {

  /** `None` stands for Python's `None` where the source returns an optional value. */
  datatype Option<+T> = None | Some(value: T)
}
