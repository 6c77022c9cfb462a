/** An optional value: a result that may be absent, like Python's `None`. */
module Options {

  datatype Option<T> = None | Some(value: T)

}
