/** The optional value returned where the source returns `java.util.Optional`. */
module Wrappers {

  datatype Option<+T> = None | Some(value: T)
}
