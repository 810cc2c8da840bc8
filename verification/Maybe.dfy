/** Values that may be missing: a null pointer, a failed parse, a search without a result. */
module Maybe {
  datatype Option<+T> = None | Some(value: T)
}
