/** The optional value used wherever the Rust code returns `Option` or `Result`. */
module Options {
  datatype Option<+T> = None | Some(value: T)
}
