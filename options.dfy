/** The optional value used for JavaScript lookups that may yield `undefined`. */
module Options {

  datatype Option<+T> = None | Some(value: T)
}
