/** The optional-value datatype used for grid cells and for the player's selected colour. */
module Wrappers {

  /** A value that may be absent; the game's `None` is `None` here. */
  datatype Option<+T> = None | Some(value: T)
}
