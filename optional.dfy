/** The "value or nothing" results of JavaScript's `find`, `findIndex` and of the hash decoders. */
module Optional {
  datatype Option<+T> = None | Some(value: T)
}
