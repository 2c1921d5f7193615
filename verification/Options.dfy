/** The Option type used wherever the program has an optional value. */
module Options {
  datatype Option<+T> = None | Some(value: T)
}
