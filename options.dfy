/** The optional value used for JavaScript's `null` results. */
module Options {

  datatype Option<+T> = None | Some(value: T)

}
