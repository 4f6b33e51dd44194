/** The conventional Some/None datatype, used where the Java code returns null. */
module Wrappers {

  datatype Option<T> = None | Some(value: T)
}
