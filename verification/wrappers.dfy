/** The optional value shared by the whole model. */
module Wrappers {

  /** A lookup that may find nothing (`fetchone()` returning `None`). */
  datatype Option<+T> = None | Some(value: T)
}
