/** The optional value used for nullable pointers and absent regions. */
module Options {
  datatype Option<+T> = None | Some(value: T)
}
