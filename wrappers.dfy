/** Rust's `Option`, as used by the server core for optional header maps and
    for the result of splitting a header line. */
module Wrappers {

  datatype Option<+T> = None | Some(value: T)
}
