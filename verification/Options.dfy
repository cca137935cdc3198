/** The Some/None type used in place of null pointers and of absent results. */
module Options {
  datatype Option<+T> = None | Some(value: T)
}
