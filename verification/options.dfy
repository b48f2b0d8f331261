/** The Some/None datatype used wherever the Java code works with a value
    that may be null. */
module Options {

  datatype Option<T> = None | Some(value: T)
}
