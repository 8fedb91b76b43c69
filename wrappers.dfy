/** The optional-value datatype shared by the models. */
module Wrappers {

  /** `None` stands for Python's `None` result of a failed regular-expression match. */
  datatype Option<+T> = None | Some(value: T)
}
