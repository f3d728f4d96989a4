/** The one option type of this project. */
module Options {
  datatype Option<+T> = None | Some(value: T)
}
