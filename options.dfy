/** A value that may be absent, used for searches and decoders that can fail. */
module Options {

  datatype Option<+T> = None | Some(value: T)

}
