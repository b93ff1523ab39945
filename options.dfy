/** The optional value used where the Go code returns nil or a
    `(value, ok)` pair. */
module Options {
  datatype Option<T> = None | Some(value: T)
}
