/** The optional value used wherever the router may or may not have something:
    a fetch that succeeded or failed, a record field that is or is not a string,
    a socket that does or does not report its local port. */
module Wrappers {

  datatype Option<+T> = None | Some(value: T)
}
