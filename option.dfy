/** The optional value the modelled code returns where Rust returns `Option`. */
module Options {
  datatype Option<T> = None | Some(value: T)
}
