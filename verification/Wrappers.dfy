/** Results that may be missing. `None` also stands for an error the source raises as an exception. */
module Wrappers {
  datatype Option<+T> = None | Some(value: T)
}
