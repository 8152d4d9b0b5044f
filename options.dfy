/** The optional value used wherever the demo has a "no such thing" case. */
module Options {
  datatype Option<+T> = None | Some(value: T)
}
