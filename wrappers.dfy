/** The optional value that `get_next_url` returns. */
module Wrappers {

  datatype Option<+T> = None | Some(value: T)
}
