/** The optional value the model uses for JavaScript values that may be absent. */
module Wrappers {

  datatype Option<+T> = None | Some(value: T)

}
