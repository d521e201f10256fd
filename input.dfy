/**
 * Keyboard input (ui/input.h, ui/input.c).  A key is the int ncurses'
 * getch returns: a character code, or one of the ncurses codes above 255
 * for the special keys.
 */
module Input {
  import opened Directions

  type Key = int

  // The ncurses codes of the special keys (<ncurses.h>).
  const KeyDown: Key := 258
  const KeyUp: Key := 259
  const KeyLeft: Key := 260
  const KeyRight: Key := 261
  const KeyHome: Key := 262
  const KeyBackspace: Key := 263
  const KeyDc: Key := 330
  const KeyEnter: Key := 343
  const KeyEnd: Key := 360

  // The game's own keys (ui/input.h).
  const KeyQuit: Key := 'q' as int
  const KeyEscape: Key := 27
  const KeySpace: Key := ' ' as int
  const KeyEnterAlt: Key := '\n' as int
  const KeySpell1: Key := '1' as int
  const KeySpell2: Key := '2' as int

  /**
   * input_key_to_direction: the WASD letters in either case, as
   * direction_from_char reads them, plus the four arrow keys; any other
   * key is DIR_NONE.
   */
  function KeyToDirection(key: Key): (d: Direction)
    ensures IsCardinal(d) || d == None
    ensures 0 <= key < 256 ==> d == FromChar(key as char)
    ensures key == KeyUp ==> d == Up
    ensures key == KeyDown ==> d == Down
    ensures key == KeyLeft ==> d == Left
    ensures key == KeyRight ==> d == Right
    ensures key >= 256 && key != KeyUp && key != KeyDown && key != KeyLeft && key != KeyRight ==> d == None
  {
    if key == 'w' as int || key == 'W' as int || key == KeyUp then Up
    else if key == 's' as int || key == 'S' as int || key == KeyDown then Down
    else if key == 'a' as int || key == 'A' as int || key == KeyLeft then Left
    else if key == 'd' as int || key == 'D' as int || key == KeyRight then Right
    else None
  }

  /** input_is_quit_key: 'q' or Escape; a quit key is no spell, action or direction key. */
  predicate IsQuitKey(key: Key)
    ensures IsQuitKey(key) ==> !IsSpell1Key(key) && !IsSpell2Key(key) && !IsActionKey(key) && KeyToDirection(key) == None
  {
    key == KeyQuit || key == KeyEscape
  }

  /** input_is_action_key: the space bar, which is no direction key. */
  predicate IsActionKey(key: Key)
    ensures IsActionKey(key) ==> KeyToDirection(key) == None
  {
    key == KeySpace
  }

  /** input_is_confirm_key: ncurses' KEY_ENTER or a newline, which is neither a quit key nor a direction key. */
  predicate IsConfirmKey(key: Key)
    ensures IsConfirmKey(key) ==> KeyToDirection(key) == None && !IsQuitKey(key)
  {
    key == KeyEnter || key == KeyEnterAlt
  }

  /** input_is_spell_1_key: '1', which is no other spell, action or direction key. */
  predicate IsSpell1Key(key: Key)
    ensures IsSpell1Key(key) ==> !IsSpell2Key(key) && !IsActionKey(key) && KeyToDirection(key) == None
  {
    key == KeySpell1
  }

  /** input_is_spell_2_key: '2', which is no action or direction key. */
  predicate IsSpell2Key(key: Key)
    ensures IsSpell2Key(key) ==> !IsActionKey(key) && KeyToDirection(key) == None
  {
    key == KeySpell2
  }

  /**
   * The roles a key can play while playing are exclusive (each key
   * predicate states it): a quit key, a spell key, the action key and a
   * direction key are never the same key, so the order in which the client
   * tests them does not matter.  The quit key is case-sensitive: 'q' quits
   * and 'Q' does not.
   */
  lemma {:induction false} KeyRolesExclusive(key: Key)
    ensures IsQuitKey(key) ==> !IsSpell1Key(key) && !IsSpell2Key(key) && !IsActionKey(key) && KeyToDirection(key) == None
    ensures IsSpell1Key(key) ==> !IsSpell2Key(key) && !IsActionKey(key) && KeyToDirection(key) == None
    ensures IsSpell2Key(key) ==> !IsActionKey(key) && KeyToDirection(key) == None
    ensures IsActionKey(key) ==> KeyToDirection(key) == None
    ensures IsConfirmKey(key) ==> KeyToDirection(key) == None && !IsQuitKey(key)
    ensures IsQuitKey('q' as int) && !IsQuitKey('Q' as int)
  {
  }
}
