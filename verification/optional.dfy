/** A value that may be absent: JavaScript's `undefined` / `null` for a result or an optional field. */
module Optional {

  datatype Option<+T> = None | Some(value: T)
}
