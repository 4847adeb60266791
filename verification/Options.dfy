/** The `T | null` of the modelled code. */
module Options {
  datatype Option<+T> = None | Some(value: T)
}
