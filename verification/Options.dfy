/** The stock optional value: `None` stands for an exception, a trap or an undefined result. */
module Options {
  datatype Option<+T> = None | Some(value: T)
}
