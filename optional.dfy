/** An optional value, as Swift's `Optional`. */
module Optional {

  datatype Option<T> = None | Some(value: T)
}
