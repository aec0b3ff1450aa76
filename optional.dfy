/** Option, used for Python's `None` results and for operations that can fail. */
module Optional {
  datatype Option<+T> = None | Some(value: T)
}
