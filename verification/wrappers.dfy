/** Small shared datatypes. */
module Wrappers {

  /** A value that may be absent. `None` stands for PHP's `null` where an
      offset, a key or a callback may be missing. */
  datatype Option<+T> = None | Some(value: T)
}
