/** A value that may be absent: the model's stand-in for Python's `None` and
    for an exception raised part-way through an all-or-nothing computation. */
module Wrappers {
  datatype Option<+T> = None | Some(value: T)
}
