/** A value that may be absent: a null tuple, a failed match, a truncated stream. */
module Optional {

  datatype Option<+T> = None | Some(value: T)
}
