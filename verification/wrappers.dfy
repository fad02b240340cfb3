/** The optional value used for lookups that may find nothing and for
    handlers that may end without replying. */
module Wrappers {

  datatype Option<+T> = None | Some(value: T)

}
