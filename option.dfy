/** Python's `X | None`: a value that may be absent (a nullable column, an
    optional request field, a `None` return). */
module Optional {

  datatype Option<+T> = None | Some(value: T)
}
