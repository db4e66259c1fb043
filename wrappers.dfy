/** A nullable value: a column or property that may hold NULL. */
module Wrappers {

  datatype Option<+T> = None | Some(value: T)
}
