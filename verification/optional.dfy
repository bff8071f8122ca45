/** An optional value, for the optional `image` fields of terms and templates. */
module Optional {
  datatype Option<T> = None | Some(value: T)
}
