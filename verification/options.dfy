/** The optional value Rust's `Option` carries: a hit test either finds a hit or it does not. */
module Options {

  datatype Option<+T> = None | Some(value: T)

}
