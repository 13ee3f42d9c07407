/** The optional value used where the crawler's Python code returns `None`. */
module Wrappers {

  datatype Option<+T> = None | Some(value: T)
}
