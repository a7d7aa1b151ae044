/** The optional value used wherever the source reads a key that may be absent
    or a value that may be `None`. */
module Options {

  datatype Option<+T> = None | Some(value: T)
}
