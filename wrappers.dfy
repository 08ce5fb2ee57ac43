/** The optional value used wherever the Java code uses a nullable reference. */
module Wrappers {

  datatype Option<+T> = None | Some(value: T)
}
