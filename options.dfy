/** An optional value, for results the source returns as None or a value. */
module Options {
  datatype Option<+T> = None | Some(value: T)
}
