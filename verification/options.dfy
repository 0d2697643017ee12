/** Optional values, for results the source represents as `None`. */
module Options {

  datatype Option<+T> = None | Some(value: T)
}
