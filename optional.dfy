/** A value that a browser API may leave out: `null`/`undefined` in the page script. */
module Optional {
  datatype Option<+T> = None | Some(value: T)
}
