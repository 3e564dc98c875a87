/** A value that may be absent: JavaScript's null/undefined fields and failed lookups. */
module Optional {

  datatype Option<+T> = None | Some(value: T)
}
