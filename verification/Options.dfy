/** An absent or present value: a null or non-null pointer. */
module Options {
  datatype Option<T> = None | Some(value: T)
}
