/** The optional value used for the cells a table row may lack and for a parse that can fail. */
module Wrappers {

  datatype Option<+T> = None | Some(value: T)
}
