/** The optional value used where the Java code can throw instead of returning. */
module Wrappers {

  datatype Option<+T> = None | Some(value: T)
}
