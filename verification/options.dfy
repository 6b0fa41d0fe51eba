/** The usual optional value, used for "first index found" results. */
module Options {

  datatype Option<+T> = None | Some(value: T)

}
