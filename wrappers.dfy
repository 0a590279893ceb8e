/** The Option type: `None` stands for Java's `null` or for a missing result. */
module Wrappers {
  datatype Option<+T> = None | Some(value: T)
}
