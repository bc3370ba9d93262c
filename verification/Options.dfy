/** Optional values: a pointer that may be null, or a lookup that may fail. */
module Options {
  datatype Option<+T> = None | Some(value: T)
}
