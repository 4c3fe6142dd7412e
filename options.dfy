/** The nullable-pointer idiom of the source (`nullptr` or an object) as a value. */
module Options {
  datatype Option<T> = None | Some(value: T)
}
