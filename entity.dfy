/**
 * Game entities (core/entity.h, core/entity.c): a character on the arena
 * with health, energy, a facing direction, the selected spell type and
 * three countdown timers in seconds.
 *
 * The C code keeps entities by value in the arena's array and updates
 * them in place in that array.  Here an entity is a value and
 * each mutator is a function returning the updated record; the arena
 * writes it back into its slot.
 */
module Entities {
  import opened Util
  import opened Vectors
  import opened Directions

  const MaxEntities := 16
  const MoveCooldown: real := 0.15
  const SkillCooldown: real := 0.5
  const DamageAnimationTime: real := 0.066
  /** Energy a POWER entity needs before entity_can_cast lets it cast. */
  const PowerCastEnergy := 10

  /** SpellType: SPELL_TYPE_BASIC = 1, SPELL_TYPE_POWER = 2. */
  datatype SpellType = Basic | Power
  {
    function Code(): int
    {
      if this == Basic then 1 else 2
    }
  }

  datatype Entity = Entity(
    id: int,
    symbol: char,
    position: Vec2,
    health: int,
    maxHealth: int,
    energy: int,
    maxEnergy: int,
    direction: Direction,
    spellType: SpellType,
    alive: bool,
    moveCooldown: real,
    skillCooldown: real,
    damageTimer: real)

  /**
   * The entity invariant the mutators keep: health and energy within
   * their bounds, a dead entity has no health left and a live one has
   * some, and no timer is negative.
   */
  predicate Sound(e: Entity)
  {
    && 0 <= e.health <= e.maxHealth
    && (e.alive <==> e.health > 0)
    && 0 <= e.energy <= e.maxEnergy
    && e.moveCooldown >= 0.0 && e.skillCooldown >= 0.0 && e.damageTimer >= 0.0
  }

  /** entity_create: full health and energy, alive, facing down, basic spell, no timer running. */
  function Create(id: int, symbol: char, pos: Vec2, maxHealth: int, maxEnergy: int): (e: Entity)
    ensures e.id == id && e.symbol == symbol && e.position == pos
    ensures e.health == e.maxHealth == maxHealth && e.energy == e.maxEnergy == maxEnergy
    ensures e.alive && e.direction == Down && e.spellType == Basic
    ensures e.moveCooldown == 0.0 && e.skillCooldown == 0.0 && e.damageTimer == 0.0
    ensures maxHealth > 0 && maxEnergy >= 0 ==> Sound(e) && CanMove(e) && CanCast(e)
  {
    Entity(id, symbol, pos, maxHealth, maxHealth, maxEnergy, maxEnergy, Down, Basic, true, 0.0, 0.0, 0.0)
  }

  /** entity_move: a live entity takes the new position and must wait MOVE_COOLDOWN; a dead one is unchanged. */
  function Move(e: Entity, newPos: Vec2): (r: Entity)
    ensures !e.alive ==> r == e
    ensures e.alive ==> r.position == newPos && r.moveCooldown == MoveCooldown && !CanMove(r)
    ensures r.(position := e.position, moveCooldown := e.moveCooldown) == e
    ensures Sound(e) ==> Sound(r)
  {
    if e.alive then e.(position := newPos, moveCooldown := MoveCooldown) else e
  }

  /**
   * entity_take_damage: a dead entity is untouched; a live one loses the
   * damage, starts the damage animation, and dies (health 0) once its
   * health is no longer positive.
   */
  function TakeDamage(e: Entity, damage: int): (r: Entity)
    ensures !e.alive ==> r == e
    ensures e.alive ==> r.health == Max(0, e.health - damage) && r.damageTimer == DamageAnimationTime
    ensures e.alive ==> (r.alive <==> e.health - damage > 0)
    ensures r.(health := e.health, alive := e.alive, damageTimer := e.damageTimer) == e
    ensures Sound(e) && damage >= 0 ==> Sound(r) && r.health <= e.health
  {
    if !e.alive then e
    else
      var h := e.health - damage;
      var hit := e.(health := h, damageTimer := DamageAnimationTime);
      if h <= 0 then hit.(health := 0, alive := false) else hit
  }

  /** entity_heal: ignored for a dead entity; otherwise adds the amount, capped at max_health. */
  function Heal(e: Entity, amount: int): (r: Entity)
    ensures !e.alive ==> r == e
    ensures e.alive ==> r.health == Min(e.health + amount, e.maxHealth)
    ensures e.alive ==> r.health <= e.maxHealth
    ensures r.(health := e.health) == e
    ensures Sound(e) && amount >= 0 ==> Sound(r) && r.health >= e.health
  {
    if !e.alive then e
    else if e.health + amount > e.maxHealth then e.(health := e.maxHealth)
    else e.(health := e.health + amount)
  }

  /**
   * entity_use_energy: succeeds exactly when the entity has at least the
   * amount; then it pays exactly that and starts the skill cooldown.
   * On failure nothing changes.
   */
  function UseEnergy(e: Entity, amount: int): (r: (bool, Entity))
    ensures r.0 <==> e.energy >= amount
    ensures !r.0 ==> r.1 == e
    ensures r.0 ==> r.1.energy == e.energy - amount && r.1.skillCooldown == SkillCooldown && !CanCast(r.1)
    ensures r.1.(energy := e.energy, skillCooldown := e.skillCooldown) == e
    ensures Sound(e) && amount >= 0 ==> Sound(r.1)
  {
    if e.energy >= amount then (true, e.(energy := e.energy - amount, skillCooldown := SkillCooldown))
    else (false, e)
  }

  /** entity_restore_energy: adds the amount, capped at max_energy (dead entities too). */
  function RestoreEnergy(e: Entity, amount: int): (r: Entity)
    ensures r.energy == Min(e.energy + amount, e.maxEnergy)
    ensures r.energy <= e.maxEnergy
    ensures r.(energy := e.energy) == e
    ensures Sound(e) && amount >= 0 ==> Sound(r) && r.energy >= e.energy
  {
    if e.energy + amount > e.maxEnergy then e.(energy := e.maxEnergy) else e.(energy := e.energy + amount)
  }

  /**
   * One timer of entity_update_cooldowns: a running timer (> 0) counts
   * down by dt and stops at 0; a timer that is not running is untouched.
   */
  function Decay(t: real, dt: real): (r: real)
    ensures t <= 0.0 ==> r == t
    ensures t > 0.0 ==> r >= 0.0
    ensures t > 0.0 && dt >= 0.0 ==> r <= t && (r == 0.0 <==> t <= dt) && (r > 0.0 ==> r == t - dt)
  {
    if t > 0.0 then (if t - dt < 0.0 then 0.0 else t - dt) else t
  }

  /** entity_update_cooldowns: each of the three timers decays; nothing else changes. */
  function UpdateCooldowns(e: Entity, dt: real): (r: Entity)
    ensures r.moveCooldown == Decay(e.moveCooldown, dt)
    ensures r.skillCooldown == Decay(e.skillCooldown, dt)
    ensures r.damageTimer == Decay(e.damageTimer, dt)
    ensures r.(moveCooldown := e.moveCooldown, skillCooldown := e.skillCooldown, damageTimer := e.damageTimer) == e
    ensures Sound(e) ==> Sound(r)
    ensures e.alive && dt >= e.moveCooldown ==> CanMove(r)
  {
    e.(moveCooldown := Decay(e.moveCooldown, dt),
       skillCooldown := Decay(e.skillCooldown, dt),
       damageTimer := Decay(e.damageTimer, dt))
  }

  /** entity_is_alive: a dead entity can neither move nor cast. */
  predicate IsAlive(e: Entity)
    ensures IsAlive(e) == e.alive
    ensures !IsAlive(e) ==> !CanMove(e) && !CanCast(e)
  {
    e.alive
  }

  /** entity_can_move: alive and the move cooldown has run out. */
  predicate CanMove(e: Entity)
  {
    e.alive && e.moveCooldown <= 0.0
  }

  /**
   * entity_can_cast: alive, skill cooldown over, and a POWER caster needs
   * 10 energy; a BASIC caster needs none.
   */
  predicate CanCast(e: Entity)
  {
    if !e.alive || e.skillCooldown > 0.0 then false
    else if e.spellType == Power && e.energy < PowerCastEnergy then false
    else true
  }

  /**
   * The move gate of entity_move and entity_can_move: after a move the
   * entity cannot move again until MOVE_COOLDOWN seconds of
   * entity_update_cooldowns have passed, and then it can.
   */
  lemma {:induction false} MoveCooldownCycle(e: Entity, pos: Vec2, dt: real)
    requires CanMove(e) && dt >= 0.0
    ensures !CanMove(Move(e, pos))
    ensures CanMove(UpdateCooldowns(Move(e, pos), dt)) <==> dt >= MoveCooldown
  {
  }

  /**
   * The cast gate of entity_use_energy and entity_can_cast: a paid cast
   * blocks casting until SKILL_COOLDOWN seconds have passed; after that a
   * BASIC caster can cast again, and a POWER caster only once it has
   * POWER's energy left, since cooldowns restore none.
   */
  lemma {:induction false} CastCooldownCycle(e: Entity, cost: int, dt: real)
    requires CanCast(e) && e.energy >= cost && dt >= 0.0
    ensures !CanCast(UseEnergy(e, cost).1)
    ensures var r := UpdateCooldowns(UseEnergy(e, cost).1, dt);
      CanCast(r) <==> dt >= SkillCooldown && (e.spellType == Power ==> e.energy - cost >= PowerCastEnergy)
  {
  }

  /** Death is one-way: no mutator brings a dead entity back. */
  lemma {:induction false} DeathIsFinal(e: Entity, pos: Vec2, n: int, dt: real)
    requires !e.alive
    ensures !Move(e, pos).alive && !TakeDamage(e, n).alive && !Heal(e, n).alive
    ensures !UseEnergy(e, n).1.alive && !RestoreEnergy(e, n).alive && !UpdateCooldowns(e, dt).alive
    ensures !CanMove(e) && !CanCast(e)
  {
  }

  /** Damage never raises health and stops at zero: a live entity dies exactly when the blow is at least its health. */
  lemma {:induction false} DamageKillsExactly(e: Entity, damage: int)
    requires Sound(e) && e.alive && damage >= 0
    ensures !TakeDamage(e, damage).alive <==> damage >= e.health
    ensures TakeDamage(e, damage).health == e.health - Min(damage, e.health)
  {
  }
}
