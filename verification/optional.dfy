/** An optional value: a missing asset, or a read that hit end of stream. */
module Optional {
  datatype Option<+T> = None | Some(value: T)
}
