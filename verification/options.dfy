/** The optional value used for the game's nullable fields and for parse results. */
module Options {

  datatype Option<T> = None | Some(value: T)
}
