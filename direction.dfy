/**
 * Movement directions (core/direction.h, core/direction.c).  A direction
 * is kept as the C enum's integer code, because the wire protocol carries
 * it as a raw byte and a decoded value need not be one of the five names.
 */
module Directions {
  import opened Vectors

  type Direction = int

  const Up: Direction := 0
  const Down: Direction := 1
  const Left: Direction := 2
  const Right: Direction := 3
  const None: Direction := -1

  /** One of the four real directions (DIR_NONE and unknown codes are not). */
  predicate IsCardinal(d: Direction)
  {
    d == Up || d == Down || d == Left || d == Right
  }

  /**
   * direction_to_vec2: a cardinal direction is a unit step (y grows
   * downwards); every other code, DIR_NONE included, is no step at all.
   */
  function ToVec2(d: Direction): (r: Vec2)
    ensures IsCardinal(d) <==> r != Zero
    ensures !IsCardinal(d) ==> r == Zero
    ensures d == Up ==> r.y < 0
    ensures d == Down ==> r.y > 0
    ensures d == Left ==> r.x < 0
    ensures d == Right ==> r.x > 0
  {
    if d == Up then Create(0, -1)
    else if d == Down then Create(0, 1)
    else if d == Left then Create(-1, 0)
    else if d == Right then Create(1, 0)
    else Create(0, 0)
  }

  /** Exactly the four real directions give a step of squared length 1. */
  lemma {:induction false} UnitSteps(d: Direction)
    ensures IsCardinal(d) <==> LengthSq(ToVec2(d)) == 1
  {
  }

  /** direction_from_char: the WASD keys in either case; anything else is DIR_NONE. */
  function FromChar(c: char): (r: Direction)
    ensures r == Up <==> c == 'w' || c == 'W'
    ensures r == Down <==> c == 's' || c == 'S'
    ensures r == Left <==> c == 'a' || c == 'A'
    ensures r == Right <==> c == 'd' || c == 'D'
    ensures IsCardinal(r) || r == None
  {
    match c
    case 'w' | 'W' => Up
    case 's' | 'S' => Down
    case 'a' | 'A' => Left
    case 'd' | 'D' => Right
    case _ => None
  }

  /** direction_opposite: the reverse step; non-cardinal codes give DIR_NONE. */
  function Opposite(d: Direction): (r: Direction)
    ensures IsCardinal(d) ==> IsCardinal(r) && r != d
    ensures IsCardinal(d) ==> ToVec2(r) == Vec2(-ToVec2(d).x, -ToVec2(d).y)
    ensures !IsCardinal(d) ==> r == None
  {
    if d == Up then Down
    else if d == Down then Up
    else if d == Left then Right
    else if d == Right then Left
    else None
  }

  /** Turning around twice restores a cardinal direction, and the two steps cancel. */
  lemma {:induction false} OppositeInvolution(d: Direction)
    requires IsCardinal(d)
    ensures Opposite(Opposite(d)) == d
    ensures Add(ToVec2(d), ToVec2(Opposite(d))) == Zero
  {
  }
}
