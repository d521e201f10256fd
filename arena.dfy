/**
 * The arena (core/arena.h, core/arena.c): a map, up to 16 entities and up
 * to 64 flying spells in fixed arrays with counters, and the two id
 * counters.  One tick decays every entity's timers, flies every spell
 * cell by cell with a collision check after each cell, and then compacts
 * the spell array to drop destroyed spells.
 *
 * The first half of the module states the arena's behaviour over
 * sequences of entity and spell values; the Arena class keeps the C
 * layout (arrays plus counts) and its methods are proved against those
 * definitions.
 */
module Arenas {
  import opened Util
  import opened Vectors
  import opened Directions
  import opened GridMap
  import opened Entities
  import opened Spells

  const BasicDamage := 5
  const BasicSpeed: real := 5.0
  const BasicEnergy := 0
  const PowerDamage := 10
  const PowerSpeed: real := 10.0
  const PowerEnergy := 10

  /** Damage, speed and energy cost of a spell kind; anything not POWER is cast as BASIC. */
  function SpellParams(kind: SpellType): (r: (int, real, int))
    ensures kind == Power ==> r == (PowerDamage, PowerSpeed, PowerEnergy)
    ensures kind == Basic ==> r == (BasicDamage, BasicSpeed, BasicEnergy)
  {
    if kind == Power then (PowerDamage, PowerSpeed, PowerEnergy) else (BasicDamage, BasicSpeed, BasicEnergy)
  }

  // ---------------------------------------------------------------------
  // Lookups over the entity list
  // ---------------------------------------------------------------------

  /** arena_get_entity: the first slot holding the id, or -1. */
  function IndexOfId(ents: seq<Entity>, id: int): (i: int)
    ensures -1 <= i < |ents|
    ensures i >= 0 ==> ents[i].id == id && forall k :: 0 <= k < i ==> ents[k].id != id
    ensures i < 0 <==> forall k :: 0 <= k < |ents| ==> ents[k].id != id
  {
    if ents == [] then -1
    else if ents[0].id == id then 0
    else
      var j := IndexOfId(ents[1..], id);
      if j < 0 then -1 else j + 1
  }

  /** arena_get_entity_at: the first LIVE entity standing on pos, or -1; dead entities are never found. */
  function IndexAt(ents: seq<Entity>, pos: Vec2): (i: int)
    ensures -1 <= i < |ents|
    ensures i >= 0 ==> ents[i].alive && ents[i].position == pos
    ensures i >= 0 ==> forall k :: 0 <= k < i ==> !(ents[k].alive && ents[k].position == pos)
    ensures i < 0 <==> forall k :: 0 <= k < |ents| ==> !(ents[k].alive && ents[k].position == pos)
  {
    if ents == [] then -1
    else if ents[0].alive && EqualsVec(ents[0].position, pos) then 0
    else
      var j := IndexAt(ents[1..], pos);
      if j < 0 then -1 else j + 1
  }

  /** arena_is_position_occupied: some live entity stands on pos. */
  predicate Occupied(ents: seq<Entity>, pos: Vec2)
  {
    IndexAt(ents, pos) >= 0
  }

  /** The entities after arena_move_entity: the mover steps when it may move and the cell ahead is free floor. */
  function Moved(size: int, cells: seq<Terrain>, ents: seq<Entity>, id: int, dir: Direction): (r: seq<Entity>)
    requires |cells| == size * size
    ensures |r| == |ents|
    ensures forall k :: 0 <= k < |ents| && k != IndexOfId(ents, id) ==> r[k] == ents[k]
    ensures forall k :: 0 <= k < |ents| && r[k] != ents[k] ==>
      && ents[k].id == id && CanMove(ents[k]) && r[k].direction == dir
      && r[k].position == Add(ents[k].position, ToVec2(dir))
      && Walkable(size, cells, r[k].position) && !Occupied(ents, r[k].position)
  {
    var i := IndexOfId(ents, id);
    if i >= 0 && CanMove(ents[i]) && Walkable(size, cells, Add(ents[i].position, ToVec2(dir)))
       && !Occupied(ents, Add(ents[i].position, ToVec2(dir)))
    then ents[i := Move(ents[i].(direction := dir), Add(ents[i].position, ToVec2(dir)))]
    else ents
  }

  /** The entity list after the server records a spell-kind choice: the entity with this id, if any, takes the kind. */
  function Selected(ents: seq<Entity>, id: int, kind: SpellType): (r: seq<Entity>)
    ensures |r| == |ents|
    ensures forall k :: 0 <= k < |ents| ==> r[k] == ents[k].(spellType := r[k].spellType)
    ensures forall k :: 0 <= k < |ents| && k != IndexOfId(ents, id) ==> r[k] == ents[k]
    ensures IndexOfId(ents, id) >= 0 ==> r[IndexOfId(ents, id)].spellType == kind
  {
    var i := IndexOfId(ents, id);
    if i < 0 then ents else ents[i := ents[i].(spellType := kind)]
  }

  /**
   * The entity and spell lists after arena_cast_spell: unchanged unless
   * the caster exists, is alive, has no running cooldown and can pay the
   * kind's cost; then it is charged and, while the spell array has room,
   * a spell of the kind with the next spell id starts one cell ahead.
   */
  function Cast(ents: seq<Entity>, spells: seq<Spell>, nextSpellId: int, id: int, dir: Direction, kind: SpellType): (r: (seq<Entity>, seq<Spell>))
    ensures |r.0| == |ents| && |spells| <= |r.1| <= |spells| + 1 && r.1[..|spells|] == spells
    ensures forall k :: 0 <= k < |ents| && k != IndexOfId(ents, id) ==> r.0[k] == ents[k]
    ensures forall k :: 0 <= k < |ents| && r.0[k] != ents[k] ==>
      && ents[k].id == id && ents[k].alive && ents[k].skillCooldown <= 0.0 && ents[k].energy >= SpellParams(kind).2
      && r.0[k] == Charged(ents[k], dir, SpellParams(kind).2)
    ensures |r.1| > |spells| ==>
      && |spells| < MaxSpells && IndexOfId(ents, id) >= 0
      && r.1[|spells|].id == nextSpellId && r.1[|spells|].casterId == id && r.1[|spells|].direction == dir
      && r.1[|spells|].position == Add(ents[IndexOfId(ents, id)].position, ToVec2(dir))
      && r.1[|spells|].spellType == kind.Code()
  {
    var i := IndexOfId(ents, id);
    var (damage, speed, cost) := SpellParams(kind);
    if !(i >= 0 && ents[i].alive && ents[i].skillCooldown <= 0.0 && ents[i].energy >= cost) then (ents, spells)
    else if |spells| < MaxSpells then
      (ents[i := Charged(ents[i], dir, cost)], spells + [Launched(nextSpellId, id, Add(ents[i].position, ToVec2(dir)), dir, damage, speed, kind.Code())])
    else (ents[i := Charged(ents[i], dir, cost)], spells)
  }

  /** arena_count_alive: the number of live entities; all of them only if every one is alive. */
  function AliveCount(ents: seq<Entity>): (n: nat)
    ensures n <= |ents|
    ensures n == |ents| <==> forall k :: 0 <= k < |ents| ==> ents[k].alive
    ensures n == 0 <==> forall k :: 0 <= k < |ents| ==> !ents[k].alive
  {
    if ents == [] then 0
    else
      var rest := AliveCount(ents[..|ents| - 1]);
      assert forall k :: 0 <= k < |ents| - 1 ==> ents[..|ents| - 1][k] == ents[k];
      if ents[|ents| - 1].alive then rest + 1 else rest
  }

  // ---------------------------------------------------------------------
  // Id bookkeeping
  // ---------------------------------------------------------------------

  /** Entity ids are issued from the counter: all in [1, next) and strictly increasing along the array. */
  ghost predicate EntityIdsOrdered(ents: seq<Entity>, next: int)
  {
    && (forall i :: 0 <= i < |ents| ==> 1 <= ents[i].id < next)
    && (forall i, j :: 0 <= i < j < |ents| ==> ents[i].id < ents[j].id)
  }

  /** The same for spells, which also keep a well-formed hit set. */
  ghost predicate SpellsOrdered(ss: seq<Spell>, next: int)
  {
    && (forall i :: 0 <= i < |ss| ==> 1 <= ss[i].id < next && Wellformed(ss[i]))
    && (forall i, j :: 0 <= i < j < |ss| ==> ss[i].id < ss[j].id)
  }

  /** Replacing an entity by one with the same id keeps the ids ordered. */
  lemma {:induction false} SameIdOrdered(ents: seq<Entity>, next: int, i: int, e: Entity)
    requires EntityIdsOrdered(ents, next) && 0 <= i < |ents| && e.id == ents[i].id
    ensures EntityIdsOrdered(ents[i := e], next)
  {
    var ents' := ents[i := e];
    assert forall k :: 0 <= k < |ents| ==> ents'[k].id == ents[k].id;
  }

  /** Ids are unique in an ordered list. */
  lemma {:induction false} OrderedIdsUnique(ents: seq<Entity>, next: int, i: int, j: int)
    requires EntityIdsOrdered(ents, next)
    requires 0 <= i < |ents| && 0 <= j < |ents| && i != j
    ensures ents[i].id != ents[j].id
  {
  }

  // ---------------------------------------------------------------------
  // One spell's flight
  // ---------------------------------------------------------------------

  /** Only the damage-related fields differ: health, the alive flag and the damage animation timer. */
  predicate DamageOnly(e: Entity, e': Entity)
  {
    e'.(health := e.health, alive := e.alive, damageTimer := e.damageTimer) == e
  }

  /** The tests check_spell_collision makes of an entity, in order: alive, not the caster, not yet hit, on the spell's cell. */
  predicate Hittable(e: Entity, s: Spell)
    requires Wellformed(s)
  {
    e.alive && e.id != s.casterId && !HasAffected(s, e.id) && EqualsVec(s.position, e.position)
  }

  /** The first hittable entity in array order, or -1. */
  function FirstHit(ents: seq<Entity>, s: Spell): (j: int)
    requires Wellformed(s)
    ensures -1 <= j < |ents|
    ensures j >= 0 ==> Hittable(ents[j], s) && forall k :: 0 <= k < j ==> !Hittable(ents[k], s)
    ensures j < 0 <==> forall k :: 0 <= k < |ents| ==> !Hittable(ents[k], s)
  {
    if ents == [] then -1
    else if Hittable(ents[0], s) then 0
    else
      var j := FirstHit(ents[1..], s);
      if j < 0 then -1 else j + 1
  }

  /**
   * check_spell_collision: the first hittable entity takes the spell's
   * damage, its id is recorded in the hit set and the spell is
   * destroyed; with no such entity nothing changes.
   */
  function Collide(ents: seq<Entity>, s: Spell): (r: (seq<Entity>, Spell))
    requires Wellformed(s)
    ensures Wellformed(r.1) && |r.0| == |ents|
    ensures FirstHit(ents, s) < 0 ==> r == (ents, s)
    ensures FirstHit(ents, s) >= 0 ==> r.1.destroyed
    ensures r.1.(destroyed := s.destroyed, affectedIds := s.affectedIds, affectedCount := s.affectedCount) == s
  {
    var j := FirstHit(ents, s);
    if j < 0 then (ents, s)
    else (ents[j := TakeDamage(ents[j], s.damage)], Destroy(MarkAffected(s, ents[j].id)))
  }

  /** The spell after one sub-step: one interval paid and one cell travelled. */
  function Advanced(s: Spell): (r: Spell)
    ensures r.position == NextPosition(s) && r.moveTimer == s.moveTimer - MoveInterval
    ensures r.(position := s.position, moveTimer := s.moveTimer) == s
  {
    s.(moveTimer := s.moveTimer - MoveInterval, position := Add(s.position, ToVec2(s.direction)))
  }

  /**
   * The sub-step loop of arena_update for one spell whose timer has
   * already been charged: while a whole interval is available and the
   * spell is intact, it moves one cell; a cell that is not walkable
   * destroys it, and otherwise a collision may hit one entity and destroy
   * it.  The flight ends with the spell destroyed or out of time.
   */
  function Flight(size: int, cells: seq<Terrain>, ents: seq<Entity>, s: Spell): (r: (seq<Entity>, Spell))
    requires |cells| == size * size && Wellformed(s)
    ensures |r.0| == |ents| && Wellformed(r.1)
    ensures forall k :: 0 <= k < |ents| ==> DamageOnly(ents[k], r.0[k])
    ensures r.1.id == s.id && r.1.casterId == s.casterId && r.1.damage == s.damage
    ensures r.1.destroyed || r.1.moveTimer < MoveInterval
    ensures s.destroyed || s.moveTimer < MoveInterval ==> r == (ents, s)
    decreases Intervals(s.moveTimer)
  {
    if s.moveTimer < MoveInterval || s.destroyed then (ents, s)
    else
      IntervalsDecrease(s.moveTimer);
      var moved := Advanced(s);
      if !Walkable(size, cells, moved.position) then (ents, Destroy(moved))
      else
        var (ents', s') := Collide(ents, moved);
        if s'.destroyed then (ents', s')
        else Flight(size, cells, ents', s')
  }

  /** One spell's part of arena_update: a destroyed spell is skipped, any other gains dt * speed and flies. */
  function SpellTick(size: int, cells: seq<Terrain>, ents: seq<Entity>, s: Spell, dt: real): (r: (seq<Entity>, Spell))
    requires |cells| == size * size && Wellformed(s)
    ensures s.destroyed ==> r == (ents, s)
  {
    if s.destroyed then (ents, s)
    else Flight(size, cells, ents, s.(moveTimer := s.moveTimer + Gain(dt, s.speed)))
  }

  /** The spell loop of arena_update, spells taken in array order, each seeing the entities the earlier ones left. */
  function SpellsTick(size: int, cells: seq<Terrain>, ents: seq<Entity>, ss: seq<Spell>, dt: real): (r: (seq<Entity>, seq<Spell>))
    requires |cells| == size * size && forall i :: 0 <= i < |ss| ==> Wellformed(ss[i])
    ensures |r.0| == |ents| && |r.1| == |ss|
    ensures forall k :: 0 <= k < |ents| ==> DamageOnly(ents[k], r.0[k])
    ensures forall i :: 0 <= i < |ss| ==> Wellformed(r.1[i]) && r.1[i].id == ss[i].id
    ensures forall i :: 0 <= i < |ss| ==> r.1[i].destroyed || r.1[i].moveTimer < MoveInterval
    decreases |ss|
  {
    if ss == [] then (ents, [])
    else
      var (ents', done) := SpellsTick(size, cells, ents, ss[..|ss| - 1], dt);
      var (ents'', last) := SpellTick(size, cells, ents', ss[|ss| - 1], dt);
      (ents'', done + [last])
  }

  /** The cooldown loop of arena_update. */
  function Cooled(ents: seq<Entity>, dt: real): (r: seq<Entity>)
    ensures |r| == |ents|
    ensures forall k :: 0 <= k < |ents| ==> r[k] == UpdateCooldowns(ents[k], dt)
  {
    seq(|ents|, k requires 0 <= k < |ents| => UpdateCooldowns(ents[k], dt))
  }

  /** arena_cleanup_spells: the spells that are not destroyed, in their original order. */
  function Live(ss: seq<Spell>): (r: seq<Spell>)
    ensures |r| <= |ss|
  {
    if ss == [] then []
    else
      var kept := Live(ss[..|ss| - 1]);
      if ss[|ss| - 1].destroyed then kept else kept + [ss[|ss| - 1]]
  }

  /** Live keeps exactly the spells that are not destroyed: every kept spell is one of them, and each of them is kept. */
  lemma {:induction false} LiveMembers(ss: seq<Spell>)
    ensures forall i :: 0 <= i < |Live(ss)| ==> !Live(ss)[i].destroyed && exists j :: 0 <= j < |ss| && Live(ss)[i] == ss[j]
    ensures forall j :: 0 <= j < |ss| && !ss[j].destroyed ==> ss[j] in Live(ss)
  {
    if ss != [] {
      var front := ss[..|ss| - 1];
      LiveMembers(front);
      assert forall i :: 0 <= i < |front| ==> front[i] == ss[i];
      forall i | 0 <= i < |Live(ss)|
        ensures !Live(ss)[i].destroyed && exists j :: 0 <= j < |ss| && Live(ss)[i] == ss[j]
      {
        if i < |Live(front)| {
          assert Live(ss)[i] == Live(front)[i];
          var j :| 0 <= j < |front| && Live(front)[i] == front[j];
          assert Live(ss)[i] == ss[j];
        } else {
          assert Live(ss)[i] == ss[|ss| - 1];
        }
      }
      forall j | 0 <= j < |ss| && !ss[j].destroyed
        ensures ss[j] in Live(ss)
      {
        if j < |front| {
          assert ss[j] in Live(front);
        } else {
          assert Live(ss)[|Live(ss)| - 1] == ss[j];
        }
      }
    }
  }

  /** Live over one more element: the element is appended exactly when it is not destroyed. */
  lemma {:induction false} LiveSnoc(ss: seq<Spell>, i: int)
    requires 0 <= i < |ss|
    ensures Live(ss[..i + 1]) == if ss[i].destroyed then Live(ss[..i]) else Live(ss[..i]) + [ss[i]]
  {
    assert ss[..i + 1][..i] == ss[..i];
  }

  /** The compaction is stable: an ordered spell list stays ordered, so survivors keep their relative order. */
  lemma {:induction false} LiveOrdered(ss: seq<Spell>, next: int)
    requires SpellsOrdered(ss, next)
    ensures SpellsOrdered(Live(ss), next)
  {
    if ss != [] {
      var front := ss[..|ss| - 1];
      var last := ss[|ss| - 1];
      assert SpellsOrdered(front, next);
      LiveOrdered(front, next);
      if !last.destroyed {
        var kept := Live(front);
        LiveMembers(front);
        forall i | 0 <= i < |kept|
          ensures kept[i].id < last.id
        {
          var j :| 0 <= j < |front| && kept[i] == front[j];
        }
        assert Live(ss) == kept + [last];
      }
    }
  }

  // ---------------------------------------------------------------------
  // Properties of a tick
  // ---------------------------------------------------------------------

  /**
   * The outcome of a flight that hit entity j: that entity was live, not
   * the caster, not yet in the hit set and on the spell's final cell; it
   * alone took the damage, it is now in the hit set (when the 16-entry
   * table had room), and the spell is destroyed.
   */
  ghost predicate HitOnce(ents: seq<Entity>, s: Spell, ents': seq<Entity>, s': Spell, j: int)
    requires Wellformed(s) && Wellformed(s')
  {
    && 0 <= j < |ents|
    && ents' == ents[j := TakeDamage(ents[j], s.damage)]
    && ents[j].alive && ents[j].id != s.casterId && !HasAffected(s, ents[j].id)
    && ents[j].position == s'.position
    && (s.affectedCount < MaxAffected ==> HasAffected(s', ents[j].id))
    && s'.destroyed
  }

  /**
   * A spell's flight damages at most one entity, and only once: either
   * nothing changes (j = -1), or exactly the entity j is hit as HitOnce says.
   */
  lemma {:induction false} FlightHitsAtMostOnce(size: int, cells: seq<Terrain>, ents: seq<Entity>, s: Spell) returns (j: int)
    requires |cells| == size * size && Wellformed(s)
    ensures var (ents', s') := Flight(size, cells, ents, s);
      (j == -1 && ents' == ents) || HitOnce(ents, s, ents', s', j)
    decreases Intervals(s.moveTimer)
  {
    if s.moveTimer < MoveInterval || s.destroyed {
      j := -1;
    } else {
      IntervalsDecrease(s.moveTimer);
      var moved := Advanced(s);
      assert HasAffected(moved, s.casterId) == HasAffected(s, s.casterId);
      if !Walkable(size, cells, moved.position) {
        j := -1;
      } else {
        var k := FirstHit(ents, moved);
        if k >= 0 {
          var s' := Destroy(MarkAffected(moved, ents[k].id));
          assert Collide(ents, moved) == (ents[k := TakeDamage(ents[k], s.damage)], s');
          j := k;
        } else {
          assert Collide(ents, moved) == (ents, moved);
          j := FlightHitsAtMostOnce(size, cells, ents, moved);
          if j >= 0 {
            assert HasAffected(moved, ents[j].id) == HasAffected(s, ents[j].id);
          }
        }
      }
    }
  }

  /** Every entity of the list is sound. */
  ghost predicate AllSound(ents: seq<Entity>)
  {
    forall k :: 0 <= k < |ents| ==> Sound(ents[k])
  }

  /** A tick keeps every entity sound when no spell deals negative damage. */
  lemma {:induction false} SpellsTickKeepsSound(size: int, cells: seq<Terrain>, ents: seq<Entity>, ss: seq<Spell>, dt: real)
    requires |cells| == size * size && forall i :: 0 <= i < |ss| ==> Wellformed(ss[i]) && ss[i].damage >= 0
    requires AllSound(ents)
    ensures AllSound(SpellsTick(size, cells, ents, ss, dt).0)
    decreases |ss|
  {
    if ss != [] {
      var front := ss[..|ss| - 1];
      SpellsTickKeepsSound(size, cells, ents, front, dt);
      var mid := SpellsTick(size, cells, ents, front, dt).0;
      var s := ss[|ss| - 1];
      assert SpellsTick(size, cells, ents, ss, dt).0 == SpellTick(size, cells, mid, s, dt).0;
      if !s.destroyed {
        FlightKeepsSound(size, cells, mid, s.(moveTimer := s.moveTimer + Gain(dt, s.speed)));
      }
    }
  }

  /** One flight keeps every entity sound when its spell's damage is not negative. */
  lemma {:induction false} FlightKeepsSound(size: int, cells: seq<Terrain>, ents: seq<Entity>, s: Spell)
    requires |cells| == size * size && Wellformed(s) && s.damage >= 0
    requires AllSound(ents)
    ensures AllSound(Flight(size, cells, ents, s).0)
  {
    var j := FlightHitsAtMostOnce(size, cells, ents, s);
    if j >= 0 {
      var after := Flight(size, cells, ents, s).0;
      forall k | 0 <= k < |after| ensures Sound(after[k]) {
        if k == j {
          assert after[k] == TakeDamage(ents[j], s.damage);
        }
      }
    }
  }

  /** Death is one-way over a tick: an entity dead before is dead after, with the same health. */
  lemma {:induction false} SpellsTickKeepsDead(size: int, cells: seq<Terrain>, ents: seq<Entity>, ss: seq<Spell>, dt: real, k: int)
    requires |cells| == size * size && forall i :: 0 <= i < |ss| ==> Wellformed(ss[i])
    requires 0 <= k < |ents| && !ents[k].alive
    ensures SpellsTick(size, cells, ents, ss, dt).0[k] == ents[k]
    decreases |ss|
  {
    if ss != [] {
      var front := ss[..|ss| - 1];
      SpellsTickKeepsDead(size, cells, ents, front, dt, k);
      var (ents', done) := SpellsTick(size, cells, ents, front, dt);
      var s := ss[|ss| - 1];
      if !s.destroyed {
        var j := FlightHitsAtMostOnce(size, cells, ents', s.(moveTimer := s.moveTimer + Gain(dt, s.speed)));
      }
    }
  }

  /** After a tick and the compaction, no destroyed spell remains and every intact one has less than an interval of time left. */
  lemma {:induction false} TickLeavesOnlyLiveSpells(size: int, cells: seq<Terrain>, ents: seq<Entity>, ss: seq<Spell>, dt: real)
    requires |cells| == size * size && forall i :: 0 <= i < |ss| ==> Wellformed(ss[i])
    ensures var r := Live(SpellsTick(size, cells, ents, ss, dt).1);
      forall i :: 0 <= i < |r| ==> !r[i].destroyed && r[i].moveTimer < MoveInterval
  {
    LiveMembers(SpellsTick(size, cells, ents, ss, dt).1);
  }

  /** The entity list a whole arena_update leaves: the cooldown pass, then the spell pass. */
  function TickedEntities(size: int, cells: seq<Terrain>, ents: seq<Entity>, ss: seq<Spell>, dt: real): (r: seq<Entity>)
    requires |cells| == size * size && forall i :: 0 <= i < |ss| ==> Wellformed(ss[i])
    ensures |r| == |ents|
  {
    SpellsTick(size, cells, Cooled(ents, dt), ss, dt).0
  }

  /** The spells after arena_update: every live spell flown in order, then the destroyed ones compacted away. */
  function TickedSpells(size: int, cells: seq<Terrain>, ents: seq<Entity>, ss: seq<Spell>, dt: real): (r: seq<Spell>)
    requires |cells| == size * size && forall i :: 0 <= i < |ss| ==> Wellformed(ss[i])
    ensures |r| <= |ss|
  {
    Live(SpellsTick(size, cells, Cooled(ents, dt), ss, dt).1)
  }

  /** A tick only ever kills: every entity keeps its id, and one alive afterwards was alive before. */
  lemma {:induction false} TickOnlyKills(size: int, cells: seq<Terrain>, ents: seq<Entity>, ss: seq<Spell>, dt: real)
    requires |cells| == size * size && forall i :: 0 <= i < |ss| ==> Wellformed(ss[i])
    ensures var r := TickedEntities(size, cells, ents, ss, dt);
      forall k :: 0 <= k < |ents| ==> r[k].id == ents[k].id && (r[k].alive ==> ents[k].alive)
  {
    var cooled := Cooled(ents, dt);
    var r := TickedEntities(size, cells, ents, ss, dt);
    forall k | 0 <= k < |ents|
      ensures r[k].id == ents[k].id && (r[k].alive ==> ents[k].alive)
    {
      assert cooled[k] == UpdateCooldowns(ents[k], dt);
      assert DamageOnly(cooled[k], r[k]);
      if !ents[k].alive {
        SpellsTickKeepsDead(size, cells, cooled, ss, dt, k);
      }
    }
  }

  /** An entity can never step onto its own cell: a move with no real direction always fails. */
  lemma {:induction false} NoMoveInPlace(ents: seq<Entity>, i: int, dir: Direction)
    requires 0 <= i < |ents| && CanMove(ents[i]) && !IsCardinal(dir)
    ensures Occupied(ents, Add(ents[i].position, ToVec2(dir)))
  {
  }

  // ---------------------------------------------------------------------
  // Casting
  // ---------------------------------------------------------------------

  /** What a successful cast does to its caster: pays the cost (when positive), starts the skill cooldown and turns to dir. */
  function Charged(e: Entity, dir: Direction, cost: int): (r: Entity)
    ensures r.energy == e.energy - cost || (cost <= 0 && r.energy == e.energy)
    ensures r.skillCooldown == SkillCooldown && r.direction == dir && !CanCast(r)
    ensures r.(energy := e.energy, skillCooldown := e.skillCooldown, direction := e.direction) == e
  {
    var paid := if cost > 0 then e.(energy := e.energy - cost) else e;
    paid.(skillCooldown := SkillCooldown, direction := dir)
  }

  /** The entity list with no two live entities on one cell. */
  ghost predicate Apart(ents: seq<Entity>)
  {
    forall i, j :: 0 <= i < j < |ents| && ents[i].alive && ents[j].alive ==> ents[i].position != ents[j].position
  }

  /** A successful move keeps live entities on distinct cells, and the mover is then the one found on its new cell. */
  lemma {:induction false} MoveKeepsApart(ents: seq<Entity>, i: int, dir: Direction, np: Vec2)
    requires Apart(ents) && 0 <= i < |ents| && CanMove(ents[i]) && !Occupied(ents, np)
    ensures Apart(ents[i := Move(ents[i].(direction := dir), np)])
    ensures IndexAt(ents[i := Move(ents[i].(direction := dir), np)], np) == i
  {
    var ents' := ents[i := Move(ents[i].(direction := dir), np)];
    forall a, b | 0 <= a < b < |ents'| && ents'[a].alive && ents'[b].alive
      ensures ents'[a].position != ents'[b].position
    {
      if a == i {
        assert !(ents[b].alive && ents[b].position == np);
      } else if b == i {
        assert !(ents[a].alive && ents[a].position == np);
      }
    }
    assert ents'[i].alive && ents'[i].position == np;
  }

  /** The spell pass over one more spell: the earlier spells' outcome, then that spell's flight. */
  lemma {:induction false} SpellsTickSnoc(size: int, cells: seq<Terrain>, ents: seq<Entity>, ss: seq<Spell>, i: int, dt: real)
    requires |cells| == size * size && forall k :: 0 <= k < |ss| ==> Wellformed(ss[k])
    requires 0 <= i < |ss|
    ensures var p := SpellsTick(size, cells, ents, ss[..i], dt);
      var t := SpellTick(size, cells, p.0, ss[i], dt);
      SpellsTick(size, cells, ents, ss[..i + 1], dt).0 == t.0 && SpellsTick(size, cells, ents, ss[..i + 1], dt).1 == p.1 + [t.1]
  {
    assert ss[..i + 1][..i] == ss[..i];
  }

  /** The cooldown pass keeps every id where it was. */
  lemma {:induction false} CooledKeepsOrdered(ents: seq<Entity>, dt: real, next: int)
    requires EntityIdsOrdered(ents, next)
    ensures EntityIdsOrdered(Cooled(ents, dt), next)
  {
    assert forall k :: 0 <= k < |ents| ==> Cooled(ents, dt)[k].id == ents[k].id;
  }

  /** The spell pass keeps the entity ids and the spell ids where they were, and every hit set well formed. */
  lemma {:induction false} TickKeepsOrdered(size: int, cells: seq<Terrain>, ents: seq<Entity>, ss: seq<Spell>, dt: real, nextEntity: int, nextSpell: int)
    requires |cells| == size * size
    requires EntityIdsOrdered(ents, nextEntity) && SpellsOrdered(ss, nextSpell)
    ensures EntityIdsOrdered(SpellsTick(size, cells, ents, ss, dt).0, nextEntity)
    ensures SpellsOrdered(SpellsTick(size, cells, ents, ss, dt).1, nextSpell)
  {
    var r := SpellsTick(size, cells, ents, ss, dt);
    assert forall k :: 0 <= k < |ents| ==> r.0[k].id == ents[k].id by {
      forall k | 0 <= k < |ents| ensures r.0[k].id == ents[k].id {
        assert DamageOnly(ents[k], r.0[k]);
      }
    }
  }

  /** A tick with no negative damage keeps every entity sound: the cooldown pass does, and so does the spell pass. */
  lemma {:induction false} TickKeepsSound(size: int, cells: seq<Terrain>, ents: seq<Entity>, ss: seq<Spell>, dt: real)
    requires |cells| == size * size && forall i :: 0 <= i < |ss| ==> Wellformed(ss[i]) && ss[i].damage >= 0
    requires AllSound(ents)
    ensures AllSound(SpellsTick(size, cells, Cooled(ents, dt), ss, dt).0)
  {
    var cooled := Cooled(ents, dt);
    assert AllSound(cooled) by {
      forall k | 0 <= k < |cooled| ensures Sound(cooled[k]) {
        assert Sound(ents[k]);
      }
    }
    SpellsTickKeepsSound(size, cells, cooled, ss, dt);
  }

  /**
   * The write-index loop of arena_cleanup_spells over the first n cells
   * of a: each spell that is not destroyed is copied down to the next
   * free place, so the first w cells end up holding exactly the live
   * spells in their original order.
   */
  method CompactSpells(a: array<Spell>, n: int) returns (w: int)
    requires 0 <= n <= a.Length
    modifies a
    ensures 0 <= w <= n
    ensures a[..w] == Live(old(a[..n]))
  {
    ghost var orig := a[..n];
    ghost var kept: seq<Spell> := [];
    w := 0;
    var i := 0;
    while i < n
      invariant 0 <= w <= i <= n
      invariant kept == Live(orig[..i]) && a[..w] == kept
      invariant forall j :: i <= j < n ==> a[j] == orig[j]
    {
      LiveSnoc(orig, i);
      var s := a[i];
      if !s.destroyed {
        a[w] := s;
        assert a[..w + 1] == a[..w] + [s];
        kept := kept + [s];
        w := w + 1;
      }
      i := i + 1;
    }
    assert orig[..n] == orig;
  }

  // ---------------------------------------------------------------------
  // The Arena record
  // ---------------------------------------------------------------------

  /**
   * The Arena struct: the map it owns, the entity and spell arrays with
   * their counts, and the id counters.  Only the first entityCount
   * entities and spellCount spells are meaningful.
   */
  class Arena {
    const grid: Map
    const entities: array<Entity>
    const spells: array<Spell>
    var entityCount: int
    var spellCount: int
    var nextEntityId: int
    var nextSpellId: int

    /** Arrays of the declared capacity and counts within them. */
    ghost predicate Shape()
      reads this, grid
    {
      && grid.Valid()
      && entities.Length == MaxEntities && spells.Length == MaxSpells
      && 0 <= entityCount <= MaxEntities && 0 <= spellCount <= MaxSpells
    }

    /** The shape, and ids issued in increasing order by the counters. */
    ghost predicate Valid()
      reads this, grid, entities, spells
    {
      && Shape()
      && EntityIdsOrdered(entities[..entityCount], nextEntityId)
      && SpellsOrdered(spells[..spellCount], nextSpellId)
      && nextEntityId >= 1 && nextSpellId >= 1
    }

    /** The entities in use. */
    ghost function EntityList(): seq<Entity>
      reads this, entities
      requires 0 <= entityCount <= entities.Length
    {
      entities[..entityCount]
    }

    /** The spells in use. */
    ghost function SpellList(): seq<Spell>
      reads this, spells
      requires 0 <= spellCount <= spells.Length
    {
      spells[..spellCount]
    }

    /** The map's cells, row by row. */
    ghost function Cells(): seq<Terrain>
      reads grid, grid.ground
    {
      grid.ground[..]
    }

    /** arena_create: a walled grid of the given size, no entities, no spells, both counters at 1. */
    constructor (mapSize: int)
      ensures Valid() && fresh(grid) && fresh(grid.ground) && fresh(entities) && fresh(spells)
      ensures grid.size == mapSize && Walled(mapSize, Cells())
      ensures EntityList() == [] && SpellList() == []
      ensures nextEntityId == 1 && nextSpellId == 1
    {
      grid := new Map(mapSize);
      entities := new Entity[MaxEntities];
      spells := new Spell[MaxSpells];
      entityCount := 0;
      spellCount := 0;
      nextEntityId := 1;
      nextSpellId := 1;
    }

    /**
     * arena_add_entity: with all 16 slots in use, -1 and no change;
     * otherwise a fresh entity is appended under the next id.
     */
    method AddEntity(symbol: char, pos: Vec2, maxHealth: int, maxEnergy: int) returns (id: int)
      requires Valid()
      modifies this, entities
      ensures Valid()
      ensures old(entityCount) >= MaxEntities ==>
        id == -1 && EntityList() == old(EntityList()) && nextEntityId == old(nextEntityId)
      ensures old(entityCount) < MaxEntities ==>
        && id == old(nextEntityId) && nextEntityId == id + 1
        && EntityList() == old(EntityList()) + [Entities.Create(id, symbol, pos, maxHealth, maxEnergy)]
      ensures spellCount == old(spellCount) && nextSpellId == old(nextSpellId)
    {
      if entityCount >= MaxEntities {
        return -1;
      }
      id := nextEntityId;
      nextEntityId := nextEntityId + 1;
      entities[entityCount] := Entities.Create(id, symbol, pos, maxHealth, maxEnergy);
      entityCount := entityCount + 1;
    }

    /**
     * arena_add_spell: with all 64 slots in use, -1 and no change;
     * otherwise a freshly launched spell is appended under the next id.
     */
    method AddSpell(casterId: int, pos: Vec2, dir: Direction, damage: int, speed: real, spellType: int) returns (id: int)
      requires Valid()
      modifies this, spells
      ensures Valid()
      ensures old(spellCount) >= MaxSpells ==>
        id == -1 && SpellList() == old(SpellList()) && nextSpellId == old(nextSpellId)
      ensures old(spellCount) < MaxSpells ==>
        && id == old(nextSpellId) && nextSpellId == id + 1
        && SpellList() == old(SpellList()) + [Launched(id, casterId, pos, dir, damage, speed, spellType)]
      ensures entityCount == old(entityCount) && nextEntityId == old(nextEntityId)
    {
      if spellCount >= MaxSpells {
        return -1;
      }
      id := nextSpellId;
      nextSpellId := nextSpellId + 1;
      var s := Spells.Create(id, casterId, pos, dir, damage, speed, spellType);
      spells[spellCount] := s;
      spellCount := spellCount + 1;
    }

    /**
     * check_spell_collision: scans the entities in order for the first
     * hittable one; that entity takes the damage, and the spell records it
     * and is destroyed.
     */
    method CheckSpellCollision(s: Spell) returns (hit: bool, r: Spell)
      requires Shape() && Wellformed(s)
      modifies entities
      ensures hit <==> FirstHit(old(EntityList()), s) >= 0
      ensures (EntityList(), r) == Collide(old(EntityList()), s)
    {
      ghost var ents := EntityList();
      var j := 0;
      while j < entityCount
        invariant 0 <= j <= entityCount
        invariant forall k :: 0 <= k < j ==> !Hittable(ents[k], s)
        invariant entities[..entityCount] == ents
      {
        var e := entities[j];
        if !e.alive || e.id == s.casterId || HasAffected(s, e.id) {
          j := j + 1;
          continue;
        }
        if EqualsVec(s.position, e.position) {
          entities[j] := TakeDamage(e, s.damage);
          r := Spells.Destroy(MarkAffected(s, e.id));
          assert entities[..entityCount] == ents[j := TakeDamage(e, s.damage)];
          return true, r;
        }
        j := j + 1;
      }
      return false, s;
    }

    /**
     * The sub-step loop of arena_update for one charged spell: move one
     * cell per whole interval, stop on a cell that is not walkable, and
     * check for a collision after every cell.  Once the spell is destroyed
     * the loop guard ends the flight.
     */
    method FlySpell(s: Spell) returns (r: Spell)
      requires Shape() && Wellformed(s)
      modifies entities
      ensures (EntityList(), r) == Flight(grid.size, Cells(), old(EntityList()), s)
    {
      ghost var target := Flight(grid.size, Cells(), EntityList(), s);
      r := s;
      while r.moveTimer >= MoveInterval && !r.destroyed
        invariant Wellformed(r)
        invariant Flight(grid.size, Cells(), EntityList(), r) == target
        decreases Intervals(r.moveTimer)
      {
        IntervalsDecrease(r.moveTimer);
        var moved := Advanced(r);
        if !grid.IsWalkable(moved.position) {
          r := Spells.Destroy(moved);
        } else {
          var hit;
          hit, r := CheckSpellCollision(moved);
        }
      }
    }

    /** arena_cleanup_spells: keeps the spells that are not destroyed, in order, at the front of the array. */
    method CleanupSpells()
      requires Valid()
      modifies this, spells
      ensures Valid()
      ensures SpellList() == Live(old(SpellList()))
      ensures entityCount == old(entityCount) && nextEntityId == old(nextEntityId) && nextSpellId == old(nextSpellId)
    {
      LiveOrdered(SpellList(), nextSpellId);
      spellCount := CompactSpells(spells, spellCount);
    }

    /**
     * arena_update: every entity's timers decay by dt; then each spell in
     * array order, unless destroyed, gains dt * speed of move time and
     * flies; finally destroyed spells are compacted away.
     */
    method Update(dt: real)
      requires Valid()
      modifies this, entities, spells
      ensures Valid()
      ensures EntityList() == TickedEntities(grid.size, Cells(), old(EntityList()), old(SpellList()), dt)
      ensures SpellList() == TickedSpells(grid.size, Cells(), old(EntityList()), old(SpellList()), dt)
      ensures entityCount == old(entityCount) && nextEntityId == old(nextEntityId) && nextSpellId == old(nextSpellId)
    {
      DecayCooldowns(dt);
      FlyAll(dt);
      CleanupSpells();
    }

    /** The spell loop of arena_update, keeping the ids in order. */
    method FlyAll(dt: real)
      requires Valid()
      modifies entities, spells
      ensures Valid()
      ensures EntityList() == SpellsTick(grid.size, Cells(), old(EntityList()), old(SpellList()), dt).0
      ensures SpellList() == SpellsTick(grid.size, Cells(), old(EntityList()), old(SpellList()), dt).1
    {
      ghost var ents := EntityList();
      ghost var flying := SpellList();
      MoveSpells(dt);
      TickKeepsOrdered(grid.size, Cells(), ents, flying, dt, nextEntityId, nextSpellId);
    }

    /** One spell's part of arena_update: unless destroyed, spells[i] gains dt * speed of move time and flies. */
    method TickSpell(i: int, dt: real)
      requires Shape() && 0 <= i < spellCount && Wellformed(spells[i])
      modifies entities, spells
      ensures EntityList() == SpellTick(grid.size, Cells(), old(EntityList()), old(spells[i]), dt).0
      ensures spells[i] == SpellTick(grid.size, Cells(), old(EntityList()), old(spells[i]), dt).1
      ensures forall j :: 0 <= j < spells.Length && j != i ==> spells[j] == old(spells[j])
    {
      var s := spells[i];
      if !s.destroyed {
        s := s.(moveTimer := s.moveTimer + Gain(dt, s.speed));
        s := FlySpell(s);
        spells[i] := s;
      }
    }

    /** The first loop of arena_update: entity_update_cooldowns on every entity in use. */
    method DecayCooldowns(dt: real)
      requires Valid()
      modifies entities
      ensures Valid()
      ensures EntityList() == Cooled(old(EntityList()), dt)
    {
      ghost var ents0 := EntityList();
      var i := 0;
      while i < entityCount
        invariant 0 <= i <= entityCount
        invariant forall k :: 0 <= k < i ==> entities[k] == UpdateCooldowns(ents0[k], dt)
        invariant forall k :: i <= k < entityCount ==> entities[k] == ents0[k]
      {
        entities[i] := UpdateCooldowns(entities[i], dt);
        i := i + 1;
      }
      assert EntityList() == Cooled(ents0, dt);
      CooledKeepsOrdered(ents0, dt, nextEntityId);
    }

    /**
     * The state of arena_update's spell loop after the first i spells:
     * the entities and those spells are as SpellsTick says, the rest of
     * the spells are untouched.
     */
    ghost predicate FlownUpTo(ents0: seq<Entity>, ss0: seq<Spell>, cells: seq<Terrain>, dt: real, i: int)
      reads this, grid, entities, spells
    {
      && Shape() && |ss0| == spellCount && 0 <= i <= spellCount && |cells| == grid.size * grid.size
      && (forall k :: 0 <= k < |ss0| ==> Wellformed(ss0[k]))
      && EntityList() == SpellsTick(grid.size, cells, ents0, ss0[..i], dt).0
      && spells[..i] == SpellsTick(grid.size, cells, ents0, ss0[..i], dt).1
      && (forall j :: i <= j < spellCount ==> spells[j] == ss0[j])
    }

    /** One pass of arena_update's spell loop. */
    method FlyNext(i: int, dt: real, ghost ents0: seq<Entity>, ghost ss0: seq<Spell>, ghost cells: seq<Terrain>)
      requires FlownUpTo(ents0, ss0, cells, dt, i) && i < spellCount && cells == Cells()
      modifies entities, spells
      ensures FlownUpTo(ents0, ss0, cells, dt, i + 1)
    {
      SpellsTickSnoc(grid.size, cells, ents0, ss0, i, dt);
      ghost var done := spells[..i];
      TickSpell(i, dt);
      assert spells[..i + 1] == done + [spells[i]];
    }

    /** The second loop of arena_update: each spell in array order, unless destroyed, is charged and flies. */
    method MoveSpells(dt: real)
      requires Shape() && forall k :: 0 <= k < spellCount ==> Wellformed(spells[k])
      modifies entities, spells
      ensures EntityList() == SpellsTick(grid.size, Cells(), old(EntityList()), old(SpellList()), dt).0
      ensures SpellList() == SpellsTick(grid.size, Cells(), old(EntityList()), old(SpellList()), dt).1
    {
      ghost var ents0 := EntityList();
      ghost var ss0 := SpellList();
      ghost var cells := Cells();
      NoneFlown(dt);
      var i := 0;
      while i < spellCount
        invariant 0 <= i <= spellCount && cells == Cells() && FlownUpTo(ents0, ss0, cells, dt, i)
      {
        FlyNext(i, dt, ents0, ss0, cells);
        i := i + 1;
      }
      AllFlown(ents0, ss0, cells, dt);
    }

    /** Before the spell loop nothing has flown. */
    lemma NoneFlown(dt: real)
      requires Shape() && forall k :: 0 <= k < spellCount ==> Wellformed(spells[k])
      ensures FlownUpTo(EntityList(), SpellList(), Cells(), dt, 0)
    {
      assert SpellList()[..0] == [];
    }

    /** After the spell loop every spell has flown. */
    lemma AllFlown(ents0: seq<Entity>, ss0: seq<Spell>, cells: seq<Terrain>, dt: real)
      requires FlownUpTo(ents0, ss0, cells, dt, spellCount)
      ensures EntityList() == SpellsTick(grid.size, cells, ents0, ss0, dt).0
      ensures SpellList() == SpellsTick(grid.size, cells, ents0, ss0, dt).1
    {
      assert ss0[..spellCount] == ss0;
    }

    /** arena_get_entity: the slot of the entity with this id, or -1 for NULL. */
    method GetEntity(id: int) returns (i: int)
      requires Shape()
      ensures i == IndexOfId(EntityList(), id)
    {
      i := 0;
      while i < entityCount
        invariant 0 <= i <= entityCount
        invariant forall k :: 0 <= k < i ==> entities[k].id != id
      {
        if entities[i].id == id {
          return;
        }
        i := i + 1;
      }
      i := -1;
    }

    /** arena_get_entity_at: the slot of the first live entity on pos, or -1; dead entities are skipped. */
    method GetEntityAt(pos: Vec2) returns (i: int)
      requires Valid()
      ensures i == IndexAt(EntityList(), pos)
    {
      i := 0;
      while i < entityCount
        invariant 0 <= i <= entityCount
        invariant forall k :: 0 <= k < i ==> !(entities[k].alive && entities[k].position == pos)
      {
        if entities[i].alive && EqualsVec(entities[i].position, pos) {
          return;
        }
        i := i + 1;
      }
      i := -1;
    }

    /** arena_is_position_occupied */
    method IsPositionOccupied(pos: Vec2) returns (occupied: bool)
      requires Valid()
      ensures occupied <==> Occupied(EntityList(), pos)
    {
      var i := GetEntityAt(pos);
      occupied := i >= 0;
    }

    /**
     * arena_move_entity: succeeds exactly when the entity exists, may
     * move, and the cell one step in dir is walkable and holds no live
     * entity; then that entity alone turns to dir and moves there.
     */
    method MoveEntity(id: int, dir: Direction) returns (moved: bool)
      requires Valid()
      modifies entities
      ensures Valid()
      ensures var ents := old(EntityList()); var i := IndexOfId(ents, id);
        && (moved <==> i >= 0 && CanMove(ents[i])
                       && Walkable(grid.size, Cells(), Add(ents[i].position, ToVec2(dir)))
                       && !Occupied(ents, Add(ents[i].position, ToVec2(dir))))
        && (moved ==> EntityList() == ents[i := Move(ents[i].(direction := dir), Add(ents[i].position, ToVec2(dir)))])
        && (!moved ==> EntityList() == ents)
      ensures EntityList() == Moved(grid.size, Cells(), old(EntityList()), id, dir)
    {
      var i := GetEntity(id);
      if i < 0 || !CanMove(entities[i]) {
        return false;
      }
      var e := entities[i];
      var newPos := Add(e.position, ToVec2(dir));
      if !grid.IsWalkable(newPos) {
        return false;
      }
      var occupied := IsPositionOccupied(newPos);
      if occupied {
        return false;
      }
      ghost var ents := EntityList();
      SameIdOrdered(ents, nextEntityId, i, Move(e.(direction := dir), newPos));
      entities[i] := Move(e.(direction := dir), newPos);
      assert EntityList() == ents[i := Move(e.(direction := dir), newPos)];
      return true;
    }

    /**
     * The spell-type choice the server makes before a cast
     * (server/server.c:412-415): the entity with this id, when there is
     * one, records the kind; nothing else changes.
     */
    method SelectSpellType(id: int, kind: SpellType)
      requires Valid()
      modifies entities
      ensures Valid()
      ensures var ents := old(EntityList()); var i := IndexOfId(ents, id);
        && (i < 0 ==> EntityList() == ents)
        && (i >= 0 ==> EntityList() == ents[i := ents[i].(spellType := kind)])
      ensures EntityList() == Selected(old(EntityList()), id, kind)
    {
      var i := GetEntity(id);
      if i >= 0 {
        ghost var ents := EntityList();
        SameIdOrdered(ents, nextEntityId, i, entities[i].(spellType := kind));
        entities[i] := entities[i].(spellType := kind);
        assert EntityList() == ents[i := entities[i]];
      }
    }

    /**
     * arena_cast_spell: fails with -1 and no change when the caster is
     * missing or dead, its skill cooldown is running, or it lacks the
     * energy the kind costs.  Otherwise the caster is charged and turns to
     * dir, and a spell of that kind is added one cell ahead of it with the
     * caster's id; when the spell array is full the caster stays charged
     * but no spell is added and the result is -1.
     */
    method CastSpell(id: int, dir: Direction, kind: SpellType) returns (spellId: int)
      requires Valid()
      modifies this, entities, spells
      ensures Valid()
      ensures entityCount == old(entityCount) && nextEntityId == old(nextEntityId)
      ensures var ents := old(EntityList()); var i := IndexOfId(ents, id);
        var (damage, speed, cost) := SpellParams(kind);
        var ready := i >= 0 && ents[i].alive && ents[i].skillCooldown <= 0.0 && ents[i].energy >= cost;
        && (!ready ==> spellId == -1 && EntityList() == ents && SpellList() == old(SpellList()) && nextSpellId == old(nextSpellId))
        && (ready ==> EntityList() == ents[i := Charged(ents[i], dir, cost)])
        && (ready && old(spellCount) < MaxSpells ==>
              && spellId == old(nextSpellId) && nextSpellId == spellId + 1
              && SpellList() == old(SpellList()) + [Launched(spellId, id, Add(ents[i].position, ToVec2(dir)), dir, damage, speed, kind.Code())])
        && (ready && old(spellCount) >= MaxSpells ==>
              spellId == -1 && SpellList() == old(SpellList()) && nextSpellId == old(nextSpellId))
      ensures (EntityList(), SpellList()) == Cast(old(EntityList()), old(SpellList()), old(nextSpellId), id, dir, kind)
    {
      var i := GetEntity(id);
      if i < 0 || !entities[i].alive || entities[i].skillCooldown > 0.0 {
        return -1;
      }
      var (damage, speed, cost) := SpellParams(kind);
      if entities[i].energy < cost {
        return -1;
      }
      var caster := entities[i];
      var spellPos := Add(caster.position, ToVec2(dir));
      var e := Charged(caster, dir, cost);
      ghost var ents := EntityList();
      SameIdOrdered(ents, nextEntityId, i, e);
      entities[i] := e;
      assert EntityList() == ents[i := e];
      spellId := AddSpell(id, spellPos, dir, damage, speed, kind.Code());
    }

    /** arena_count_alive */
    method CountAlive() returns (n: int)
      requires Shape()
      ensures n == AliveCount(EntityList())
    {
      ghost var ents := EntityList();
      n := 0;
      var i := 0;
      while i < entityCount
        invariant 0 <= i <= entityCount
        invariant n == AliveCount(ents[..i])
      {
        assert ents[..i + 1][..i] == ents[..i];
        if entities[i].alive {
          n := n + 1;
        }
        i := i + 1;
      }
      assert ents[..entityCount] == ents;
    }

    /** arena_destroy: releases the grid and empties both lists. */
    method Destroy()
      requires Valid()
      modifies this, grid
      ensures Valid() && grid.size == 0 && EntityList() == [] && SpellList() == []
    {
      grid.Destroy();
      entityCount := 0;
      spellCount := 0;
    }
  }
}
