/** The optional value used where the Java code returns a possibly-null reference. */
module Wrappers {

  /** `None` stands for Java's `null` result. */
  datatype Option<+T> = None | Some(value: T)
}
