/**
 * Projectiles (core/spell.h, core/spell.c).  A spell flies one cell in
 * its direction each time its move timer has accumulated a full
 * SPELL_MOVE_INTERVAL, and remembers in a small fixed table ("hit set")
 * the ids of the entities it has already affected.
 *
 * Spells live by value in the arena's array; as for entities, each
 * mutator here returns the updated record.
 */
module Spells {
  import opened Vectors
  import opened Directions

  const MaxSpells := 64
  const MaxAffected := 16
  const MoveInterval: real := 0.066

  datatype Spell = Spell(
    id: int,
    casterId: int,
    position: Vec2,
    direction: Direction,
    damage: int,
    speed: real,
    moveTimer: real,
    spellType: int,
    affectedIds: seq<int>,
    affectedCount: int,
    destroyed: bool)

  /**
   * The hit-set invariant: the table has its 16 cells, the count is
   * within them, and the recorded ids are pairwise distinct.
   */
  predicate Wellformed(s: Spell)
  {
    && |s.affectedIds| == MaxAffected
    && 0 <= s.affectedCount <= MaxAffected
    && forall i, j :: 0 <= i < j < s.affectedCount ==> s.affectedIds[i] != s.affectedIds[j]
  }

  /** The ids in the hit set. */
  function Affected(s: Spell): set<int>
    requires Wellformed(s)
  {
    set i | 0 <= i < s.affectedCount :: s.affectedIds[i]
  }

  /** The record spell_create returns: not destroyed, timer 0, empty hit set padded with -1. */
  function Launched(id: int, casterId: int, pos: Vec2, dir: Direction, damage: int, speed: real, spellType: int): (s: Spell)
    ensures Wellformed(s) && Affected(s) == {} && !s.destroyed && s.moveTimer == 0.0
    ensures s.id == id && s.casterId == casterId && s.position == pos && s.direction == dir
    ensures s.damage == damage && s.speed == speed && s.spellType == spellType
    ensures forall i :: 0 <= i < MaxAffected ==> s.affectedIds[i] == -1
  {
    Spell(id, casterId, pos, dir, damage, speed, 0.0, spellType, seq(MaxAffected, _ => -1), 0, false)
  }

  /** spell_create: fills the hit-set table with -1 in a loop. */
  method Create(id: int, casterId: int, pos: Vec2, dir: Direction, damage: int, speed: real, spellType: int)
    returns (s: Spell)
    ensures s == Launched(id, casterId, pos, dir, damage, speed, spellType)
  {
    var ids := new int[MaxAffected];
    var i := 0;
    while i < MaxAffected
      invariant 0 <= i <= MaxAffected
      invariant forall k :: 0 <= k < i ==> ids[k] == -1
    {
      ids[i] := -1;
      i := i + 1;
    }
    s := Spell(id, casterId, pos, dir, damage, speed, 0.0, spellType, ids[..], 0, false);
  }

  /** spell_has_affected: the id is among the first affected_count entries of the table. */
  predicate HasAffected(s: Spell, entityId: int)
    requires Wellformed(s)
    ensures HasAffected(s, entityId) <==> entityId in Affected(s)
  {
    exists i :: 0 <= i < s.affectedCount && s.affectedIds[i] == entityId
  }

  /**
   * spell_mark_affected: appends the id when there is room and it is not
   * already recorded; the hit set stays duplicate-free and within 16.
   */
  function MarkAffected(s: Spell, entityId: int): (r: Spell)
    requires Wellformed(s)
    ensures Wellformed(r)
    ensures s.affectedCount < MaxAffected ==> HasAffected(r, entityId)
    ensures Affected(r) == if s.affectedCount < MaxAffected then Affected(s) + {entityId} else Affected(s)
    ensures r.affectedCount == if s.affectedCount < MaxAffected && !HasAffected(s, entityId) then s.affectedCount + 1 else s.affectedCount
    ensures r.(affectedIds := s.affectedIds, affectedCount := s.affectedCount) == s
  {
    if s.affectedCount < MaxAffected && !HasAffected(s, entityId) then
      var r := s.(affectedIds := s.affectedIds[s.affectedCount := entityId], affectedCount := s.affectedCount + 1);
      assert forall i :: 0 <= i < s.affectedCount ==> r.affectedIds[i] == s.affectedIds[i];
      assert Affected(r) == Affected(s) + {entityId} by {
        forall x | x in Affected(r) ensures x in Affected(s) + {entityId} {
          var i :| 0 <= i < r.affectedCount && r.affectedIds[i] == x;
        }
        forall x | x in Affected(s) + {entityId} ensures x in Affected(r) {
          if x == entityId {
            assert r.affectedIds[s.affectedCount] == x;
          } else {
            var i :| 0 <= i < s.affectedCount && s.affectedIds[i] == x;
            assert r.affectedIds[i] == x;
          }
        }
      }
      r
    else
      s
  }

  /** Marking the same id twice is the same as marking it once. */
  lemma {:induction false} MarkAffectedIdempotent(s: Spell, entityId: int)
    requires Wellformed(s)
    ensures MarkAffected(MarkAffected(s, entityId), entityId) == MarkAffected(s, entityId)
  {
  }

  /** spell_destroy: sets the destroyed flag and nothing else. */
  function Destroy(s: Spell): (r: Spell)
    ensures r.destroyed
    ensures r.(destroyed := s.destroyed) == s
  {
    s.(destroyed := true)
  }

  /** Destroying twice is the same as destroying once. */
  lemma {:induction false} DestroyIdempotent(s: Spell)
    ensures Destroy(Destroy(s)) == Destroy(s)
  {
  }

  /** spell_next_position: one step in the spell's direction from where it is. */
  function NextPosition(s: Spell): (p: Vec2)
    ensures Sub(p, s.position) == ToVec2(s.direction)
    ensures IsCardinal(s.direction) <==> p != s.position
  {
    Add(s.position, ToVec2(s.direction))
  }

  /** Termination measure for a move timer: whole intervals it holds. */
  function Intervals(t: real): nat
  {
    if t < MoveInterval then 0 else (t / MoveInterval).Floor
  }

  lemma {:induction false} IntervalsDecrease(t: real)
    requires t >= MoveInterval
    ensures Intervals(t - MoveInterval) < Intervals(t)
  {
  }

  /** The number of whole intervals a move timer of t pays for. */
  function Steps(t: real): nat
    decreases Intervals(t)
  {
    if t < MoveInterval then 0 else IntervalsDecrease(t); 1 + Steps(t - MoveInterval)
  }

  /** What is left of a move timer of t once every whole interval is paid for. */
  function Leftover(t: real): (r: real)
    ensures r < MoveInterval
    ensures t >= 0.0 ==> r >= 0.0
    decreases Intervals(t)
  {
    if t < MoveInterval then t else IntervalsDecrease(t); Leftover(t - MoveInterval)
  }

  /** The leftover is the timer less one interval per step taken. */
  lemma {:induction false} LeftoverIsRemainder(t: real)
    ensures Leftover(t) == t - (Steps(t) as real) * MoveInterval
    ensures Steps(t) > 0 ==> t >= MoveInterval
    decreases Intervals(t)
  {
    if t >= MoveInterval {
      IntervalsDecrease(t);
      LeftoverIsRemainder(t - MoveInterval);
    }
  }

  /** The time a spell of the given speed accumulates over dt seconds. */
  function Gain(dt: real, speed: real): real
  {
    dt * speed
  }

  /** The point n steps of d away from p. */
  function Shift(p: Vec2, d: Vec2, n: nat): Vec2
  {
    if n == 0 then p else Add(Shift(p, d, n - 1), d)
  }

  /** n steps of d move each coordinate by n times the delta. */
  lemma {:induction false} ShiftLinear(p: Vec2, d: Vec2, n: nat)
    ensures Shift(p, d, n) == Vec2(p.x + n * d.x, p.y + n * d.y)
  {
    if n > 0 {
      ShiftLinear(p, d, n - 1);
      assert (n - 1) * d.x + d.x == n * d.x;
      assert (n - 1) * d.y + d.y == n * d.y;
    }
  }

  /**
   * spell_update: a destroyed spell is untouched; otherwise the timer
   * gains dt * speed and the spell advances one cell for every whole
   * interval, keeping the leftover time.
   */
  method Update(s: Spell, dt: real) returns (r: Spell)
    ensures s.destroyed ==> r == s
    ensures !s.destroyed ==>
      var t := s.moveTimer + Gain(dt, s.speed);
      r == s.(moveTimer := Leftover(t),
               position := Shift(s.position, ToVec2(s.direction), Steps(t)))
    ensures r.moveTimer < MoveInterval || s.destroyed
  {
    if s.destroyed {
      return s;
    }
    var timer := s.moveTimer + Gain(dt, s.speed);
    ghost var t := timer;
    var position := s.position;
    ghost var k: nat := 0;
    while timer >= MoveInterval
      invariant k + Steps(timer) == Steps(t)
      invariant Leftover(timer) == Leftover(t)
      invariant position == Shift(s.position, ToVec2(s.direction), k)
      decreases Intervals(timer)
    {
      IntervalsDecrease(timer);
      timer := timer - MoveInterval;
      var delta := ToVec2(s.direction);
      position := Add(position, delta);
      k := k + 1;
    }
    r := s.(moveTimer := timer, position := position);
  }
}
