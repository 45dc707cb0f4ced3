/** The conventional option type, used wherever the C and C++ sources use a null pointer. */
module Optional {
  datatype Option<+T> = None | Some(value: T)
}
