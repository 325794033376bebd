/** The optional value the Python code expresses with `None`. */
module Optional {
  datatype Option<+T> = None | Some(value: T)
}
