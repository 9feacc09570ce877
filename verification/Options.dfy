/** Optional values: the source's nullable cache pointers and missing results. */
module Options {
  datatype Option<T> = None | Some(value: T)
}
