/** The optional value used wherever the Rust code has an `Option` or a
    fallible conversion. */
module Wrappers {

  datatype Option<+T> = None | Some(value: T)
}
