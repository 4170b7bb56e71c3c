/** A value that may be absent: JavaScript's `null`/`undefined` results. */
module Optional {
  datatype Option<+T> = None | Some(value: T)
}
