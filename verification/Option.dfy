/** The values that the TypeScript sources spell `T | undefined`. */
module Options {
  datatype Option<+T> = None | Some(value: T)
}
