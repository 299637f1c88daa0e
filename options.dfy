/** The optional value used for things that may be absent: a reference image
    that has not loaded, a message that is not sent, an address that does not parse. */
module Options {

  datatype Option<+T> = None | Some(value: T)
}
