/** Optional values: a NULL pointer, a failed open or allocation, or a rejected file. */
module Optional {
  datatype Option<T> = None | Some(value: T)
}
