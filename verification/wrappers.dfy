/** The optional value used wherever the Java code may hold `null` or may fail
    to produce a value. */
module Wrappers {

  datatype Option<+T> = None | Some(value: T)

}
