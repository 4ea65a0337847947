/** An optional value: a missing path, an unbound variable, an exception that was or was not raised. */
module Options {
  datatype Option<+T> = None | Some(value: T)
}
