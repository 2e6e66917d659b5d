/** A possibly missing value: a nullable pointer of the C sources. */
module Options {
  datatype Option<+T> = None | Some(value: T)
}
