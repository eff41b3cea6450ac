/** The result of a lookup that may find nothing, where the C code returns a pointer that may be null. */
module Wrappers {

  /** `None` stands for a null pointer; `Some(v)` for a pointer to `v`. */
  datatype Option<+T> = None | Some(value: T)
}
