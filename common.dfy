/** Small value types shared by both versions of the game: results, key codes, the frog's facing and the game status. */
module Common {

  /** A value that may be absent; stands in for a nullable pointer or a "not found" index. */
  datatype Option<T> = None | Some(value: T)

  /** The frog's `direction` codes 'U', 'D', 'L' and 'R'. */
  datatype Facing = Up | Down | Left | Right

  /** One value read by `getch()`: an arrow key, or any other key code. */
  datatype Key = KeyUp | KeyDown | KeyLeft | KeyRight | Ch(c: char)
  {
    predicate IsArrow()
    {
      !Ch?
    }
  }

  function FacingOf(key: Key): Facing
    requires key.IsArrow()
  {
    match key
    case KeyUp => Up
    case KeyDown => Down
    case KeyLeft => Left
    case KeyRight => Right
  }

  /** The codes `check_game_status` returns: 'w', 'c' and 'n'. */
  datatype Status = Won | Crashed | Ongoing
}
