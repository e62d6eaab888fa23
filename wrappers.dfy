/** Small failure-compatible wrapper shared by the modules of this model. */
module Wrappers {

  /** An optional value: `None` stands for a NULL pointer, a -1 sentinel or an empty slot. */
  datatype Option<+T> = None | Some(value: T)
}
