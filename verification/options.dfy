/** An optional value: a tag that may be absent, a best file that may not exist. */
module Options {
  datatype Option<+T> = None | Some(value: T)
}
