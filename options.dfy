/** An optional value, used for "no section to jump to". */
module Options {
  datatype Option<T> = None | Some(value: T)
}
