/** The "value or nothing" result that the game code signals with Python's None. */
module Options {

  datatype Option<+T> = None | Some(value: T)
}
