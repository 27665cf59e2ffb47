/** The optional value used wherever the bot returns `None` or looks a key up. */
module Wrappers {

  datatype Option<+T> = None | Some(value: T)

  function Min(a: int, b: int): int
  {
    if a <= b then a else b
  }
}
