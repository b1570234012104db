/** Optional results, for lookups that find nothing and operations that fail. */
module Options {
  datatype Option<+T> = None | Some(value: T)
}
