/**
 * Integer grid vectors (core/vec2.c): positions on the arena map and the
 * one-cell steps that move entities and spells.
 */
module Vectors {

  datatype Vec2 = Vec2(x: int, y: int)

  const Zero := Vec2(0, 0)

  /** vec2_create */
  function Create(x: int, y: int): (r: Vec2)
    ensures r.x == x && r.y == y
  {
    Vec2(x, y)
  }

  /** vec2_add: componentwise sum; subtracting either summand gives back the other. */
  function Add(a: Vec2, b: Vec2): (r: Vec2)
    ensures Sub(r, b) == a && Sub(r, a) == b
  {
    Create(a.x + b.x, a.y + b.y)
  }

  /** vec2_sub: componentwise difference; adding the subtrahend back gives the minuend. */
  function Sub(a: Vec2, b: Vec2): (r: Vec2)
    ensures Vec2(r.x + b.x, r.y + b.y) == a
  {
    Create(a.x - b.x, a.y - b.y)
  }

  /** vec2_length_sq: never negative, and zero exactly for the zero vector. */
  function LengthSq(v: Vec2): (r: int)
    ensures r >= 0
    ensures r == 0 <==> v == Zero
    ensures r == 1 <==> v in {Vec2(0, -1), Vec2(0, 1), Vec2(-1, 0), Vec2(1, 0)}
  {
    SquaresAreNonNegative(v.x, v.y);
    v.x * v.x + v.y * v.y
  }

  /** vec2_equals: componentwise comparison coincides with equality of vectors. */
  function EqualsVec(a: Vec2, b: Vec2): (r: bool)
    ensures r <==> a == b
  {
    a.x == b.x && a.y == b.y
  }

  lemma {:induction false} SquaresAreNonNegative(x: int, y: int)
    ensures x * x >= 0 && y * y >= 0
    ensures x * x + y * y == 0 <==> x == 0 && y == 0
    ensures x * x + y * y == 1 <==> (x == 0 && (y == 1 || y == -1)) || (y == 0 && (x == 1 || x == -1))
  {
    SquareFacts(x);
    SquareFacts(y);
  }

  lemma {:induction false} SquareFacts(x: int)
    ensures x * x >= 0
    ensures x * x == 0 <==> x == 0
    ensures x * x == 1 <==> x == 1 || x == -1
    ensures x * x >= 4 || x == 0 || x == 1 || x == -1
  {
    if x >= 2 {
      assert x * x >= 2 * x;
    } else if x <= -2 {
      assert x * x >= -2 * x;
    }
  }

  /** Addition is commutative and the zero vector is its identity. */
  lemma {:induction false} AddCommutes(a: Vec2, b: Vec2)
    ensures Add(a, b) == Add(b, a)
    ensures Add(a, Zero) == a
  {
  }
}
