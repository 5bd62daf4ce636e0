/** Optional values: a DOM query that found nothing, a missing attribute. */
module Options {
  datatype Option<+T> = None | Some(value: T)
}
