/** A value that may be absent: JavaScript's `null`/`undefined` for one slot. */
module Optional {

  datatype Option<+T> = None | Some(value: T)
}
