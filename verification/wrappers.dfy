/** The optional-value datatype shared by every layer of the model. */
module Wrappers {

  /** `None` stands for Python's `None` / "not found"; `Some(v)` carries a value. */
  datatype Option<+T> = None | Some(value: T)
}
