/** A value that may be absent: Go's `nil` error, or the result of a call
    that ran out of stack before returning. */
module Optional {

  datatype Option<T> = None | Some(value: T)
}
