/** An optional value shared by the player and the encoder. */
module Wrappers {

  /** An optional value: a command-line flag that was not given, a file that
      could not be opened, a header line that did not match. */
  datatype Option<+T> = None | Some(value: T)
}
