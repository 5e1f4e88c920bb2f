/** The `Optional` results of the Java code (java.util.Optional, or a null check). */
module Wrappers {

  datatype Option<+T> = None | Some(value: T)
}
