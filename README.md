# ascii_arena in Dafny

ascii_arena is a terminal multiplayer arena game written in C. A server
holds a room of up to eight sessions and one game. Players log in with a
letter. Once enough players are present, the game builds an arena: a
square grid walled on its border, one entity per player and the spells
in flight. Every tick decays the entities' cooldowns and flies each spell
one cell at a time, hitting at most once each entity it meets. Each
survivor gains a point for every death of the tick. A round ends when at
most one player is left: either somebody has reached the winning score,
or a new arena is built. Clients and server talk in frames: a 3-byte
header (type, then a little-endian 16-bit length) and a payload. These go
over TCP, and game steps go over UDP once a client has bound its session
token to a UDP address. The client keeps its own state, a connection menu
with a text field for the server address, and a picture of the arena
rebuilt from every game step.

This project models that core, one module per source file:

| module | file | source |
|---|---|---|
| `Vectors`, `Directions`, `GridMap` | vec2.dfy, direction.dfy, map.dfy | core/vec2.c, core/direction.c, core/map.c |
| `Entities`, `Spells`, `Players`, `Characters` | entity.dfy, spell.dfy, player.dfy, character.dfy | core/entity.c, core/spell.c, core/player.c, core/character.c |
| `Arenas` | arena.dfy | core/arena.c |
| `Games` | game.dfy | core/game.c |
| `Sessions` | session.dfy | server/session.c |
| `Protocol`, `Encoder`, `Framing` | protocol.dfy, encoder.dfy, framing.dfy | net/protocol.h, net/encoder.c, the framing loops of server/server.c and client/app.c |
| `Servers` | server.dfy | server/server.c |
| `ClientStates`, `ClientApps` | client_state.dfy, client_app.dfy | client/state.c, client/app.c |
| `Menus`, `ArenaViews`, `Input` | menu.dfy, arena_view.dfy, input.dfy | ui/menu.c, ui/arena_view.c, ui/input.c |
| `Util` | util.dfy | common/util.c |

The form follows the source.

- Structs that the C code keeps by value inside arrays are datatypes:
  entities, spells, players, sessions, the client's state and the view's
  rows. Their in-place mutators (`entity_take_damage` and the like) are
  functions that return the updated record. The owner writes that record
  back into its slot.
- The owners of fixed-capacity arrays with counters are classes over
  `array`s: the map, the arena, the game, the session room, the server,
  the menu's text field, the arena view and the client application.
  Their methods are proved against functions on the sequences the arrays
  hold. Three examples: the arena's tick equals `TickedEntities` and
  `TickedSpells`; spell cleanup is the stable filter `Live`; the client's
  frame loop equals the fold `Run` over `Frames` of its buffer.
- The properties of those functions are proved as lemmas. Among them:
  - every encoder round-trips through its decoder;
  - the framing loops hand over every whole frame once and in order, and
    keep only an incomplete tail;
  - a spell hits an entity at most once;
  - a tick only ever kills;
  - the scoring pays every survivor the number of deaths of the tick;
  - the room's session count is the number of active slots, and each
    token names one slot;
  - a login status sent by the server reaches the client's menu as the
    matching status;
  - the client's default address parses back to the host and port it was
    made from.

Some behaviour is modelled as the code has it, although it may look
unintended:

- `arena_cast_spell` charges energy and the skill cooldown before it
  tries to add the spell. A cast into a full spell array therefore
  charges the caster and launches nothing (core/arena.c:185-200).
- A LOGIN from a session that is already logged in, with another free
  letter, seats a second session on the same socket. The first session
  stays active with its socket set to -1 (server/server.c:313-347).
- `room_session_add` takes the first inactive slot, even when a socket
  that has not logged in yet is parked there (server/session.c:37-38).
- `decode_game_step` reads its three count bytes without checking the
  length first. Here, bytes beyond the end read as 0.

Integers are unbounded. Wherever the C code casts (to `uint8_t`,
`uint16_t` or `int32_t`), the model writes the wrap-around out
(`Wrap16`, `Wrap32`, `% 256`). C's truncating division is `CDiv`/`CMod`
in `Util`. Multi-byte payload fields are little-endian: the header length
is written that way explicitly, and the other fields are copied in host
order, which is taken to be a little-endian host.

## Model

| member | source | states |
|---|---|---|
| Vectors.Create | core/vec2.c:8-11 | the vector holds exactly the given coordinates |
| Vectors.Add | core/vec2.c:14-16 | componentwise sum: subtracting either summand from the result gives back the other |
| Vectors.Sub | core/vec2.c:19-21 | componentwise difference: adding the subtrahend back gives the minuend |
| Vectors.LengthSq | core/vec2.c:24-26 | never negative; zero exactly for (0,0); one exactly for the four unit steps |
| Vectors.EqualsVec | core/vec2.c:29-31 | holds iff the two vectors are equal (so reflexive and symmetric) |
| Vectors.AddCommutes | core/vec2.c:14-16 | addition is commutative and (0,0) is its identity |
| Directions.ToVec2 | core/direction.c:8-16 | a cardinal direction gives a non-zero step pointing its way (Up: y<0, Down: y>0, Left: x<0, Right: x>0); every other code, DIR_NONE included, gives (0,0) |
| Directions.UnitSteps | core/direction.c:8-16 | exactly the four cardinal directions give a step of squared length 1 |
| Directions.FromChar | core/direction.c:19-27 | w/W, s/S, a/A, d/D map to Up, Down, Left, Right (both directions of each iff); everything else to DIR_NONE |
| Directions.Opposite | core/direction.c:30-38 | a cardinal direction maps to a different cardinal one whose step is the negated step; anything else to DIR_NONE |
| Directions.OppositeInvolution | core/direction.c:8-38 | opposite is an involution on the four directions and the two steps cancel |
| GridMap.TerrainAt | core/map.c:30-35 | outside the grid the answer is Wall; inside it is the cell at the row-major index, which is in range |
| GridMap.WalledWalkable | core/map.c:9-27 | on a freshly created grid, a position is walkable iff it is strictly inside the border |
| GridMap.IndexOrder | core/map.c:15-17 | row-major order: a cell filled earlier has a smaller index, so the fill loop never overwrites a finished cell |
| GridMap.PosIndexRoundTrip | core/map.c:45-52 | for a valid position the index is in [0, size*size) and map_index_to_pos gives the position back |
| GridMap.IndexPosRoundTrip | core/map.c:45-52 | for an index in [0, size*size) the position is valid and map_pos_to_index gives the index back |
| GridMap.Map.constructor | core/map.c:9-27 | every cell is Wall iff x or y equals 0 or size-1, Floor otherwise; the cell block has size*size entries |
| GridMap.Map.GetTerrain | core/map.c:30-35 | any out-of-bounds position answers Wall; otherwise the stored cell |
| GridMap.Map.SetTerrain | core/map.c:38-42 | an in-bounds write changes exactly the target cell; an out-of-bounds one changes nothing |
| GridMap.Map.IndexToPosition | core/map.c:45-47 | on [0, size*size) the position is valid and converts back to the index |
| GridMap.Map.PositionToIndex | core/map.c:50-52 | on a valid position the index is in [0, size*size) and converts back to the position |
| GridMap.Map.IsWalkable | core/map.c:61-63 | walkable (Floor) implies in bounds, so nothing off the grid is walkable |
| GridMap.Map.Destroy | core/map.c:66-72 | size 0 and no cells remain |
| GridMap.InBounds | core/map.c:55-58 | a position can only be in bounds on a map of positive size |
| GridMap.PosToIndex | core/map.c:50-52 | an in-bounds position maps to a cell index inside the size*size grid |
| GridMap.IndexToPos | core/map.c:45-47 | a non-negative index becomes (index mod size, index div size), and an index inside the grid gives an in-bounds position |
| GridMap.Walkable | core/map.c:61-63 | a walkable position is in bounds |
| Entities.Create | core/entity.c:15-31 | full health and energy equal to the maxima, alive, facing DIR_DOWN, BASIC spell, all three timers 0; a sound entity that can move and cast |
| Entities.Move | core/entity.c:34-39 | a live entity takes the new position and the move cooldown (so cannot move again at once); a dead one is unchanged; nothing else changes |
| Entities.TakeDamage | core/entity.c:42-52 | a dead entity is unchanged; a live one ends with max(0, health - damage), starts the damage timer, and stays alive iff health - damage > 0; non-negative damage keeps the invariant and never raises health |
| Entities.Heal | core/entity.c:55-62 | a dead entity is unchanged; otherwise health becomes min(health + amount, max_health); only health changes |
| Entities.UseEnergy | core/entity.c:65-72 | succeeds iff energy >= amount; on success energy drops by exactly the amount and the skill cooldown starts; on failure nothing changes |
| Entities.RestoreEnergy | core/entity.c:75-80 | energy becomes min(energy + amount, max_energy), dead or alive; only energy changes |
| Entities.Decay | core/entity.c:88-101 | a stopped timer (<= 0) is untouched; a running one never goes negative and reaches 0 exactly when dt covers it, otherwise drops by dt |
| Entities.UpdateCooldowns | core/entity.c:88-101 | each of the three timers decays independently; nothing else changes; the entity invariant is kept |
| Entities.DeathIsFinal | core/entity.c:34-118 | no mutator revives a dead entity, and a dead entity can neither move nor cast |
| Entities.DamageKillsExactly | core/entity.c:42-52 | a live entity dies exactly when the damage is at least its health, and loses min(damage, health) |
| Entities.IsAlive | core/entity.c:83-85 | alive is the entity's flag; a dead entity can neither move nor cast |
| Entities.MoveCooldownCycle | core/entity.c:34-106 | an entity that moves cannot move again at once, and after the cooldowns are updated by dt it can move again exactly when dt >= MOVE_COOLDOWN |
| Entities.CastCooldownCycle | core/entity.c:65-118 | a paid cast blocks casting at once; after dt it can cast again exactly when dt >= SKILL_COOLDOWN and, for POWER, at least 10 energy is left |
| Spells.Launched | core/spell.c:11-30 | not destroyed, timer 0, empty hit set, all 16 table cells -1, other fields as given |
| Spells.Create | core/spell.c:11-30 | the table-filling loop yields exactly the launched record |
| Spells.HasAffected | core/spell.c:47-54 | holds iff the id is among the first affected_count table entries |
| Spells.MarkAffected | core/spell.c:57-61 | with room, the id is afterwards recorded; the hit set gains exactly that id, the count grows only for a new id, stays <= 16 and duplicate-free |
| Spells.MarkAffectedIdempotent | core/spell.c:57-61 | marking the same id twice equals marking it once |
| Spells.Destroy | core/spell.c:64-66 | sets the destroyed flag and nothing else |
| Spells.DestroyIdempotent | core/spell.c:64-66 | destroying twice equals destroying once |
| Spells.NextPosition | core/spell.c:69-72 | the position plus the direction's step; differs from the position iff the direction is cardinal |
| Spells.Leftover | core/spell.c:39-43 | what remains of the move timer is below one interval and non-negative |
| Spells.LeftoverIsRemainder | core/spell.c:39-43 | the remaining timer is the accumulated time less one interval per step taken |
| Spells.ShiftLinear | core/spell.c:39-43 | n one-cell steps move the spell by n times the direction's step |
| Spells.Update | core/spell.c:33-44 | a destroyed spell is unchanged; otherwise the timer gains dt*speed and the spell advances one cell per whole interval, keeping the remainder below one interval |
| Players.Create | core/player.c:8-25 | the given symbol, 0 points, entity id -1 (so not alive), not connected |
| Players.AddPoints | core/player.c:18-20 | the score grows by exactly the argument; nothing else changes |
| Players.AddPointsAccumulate | core/player.c:18-20 | two awards equal one award of their sum |
| Players.Reset | core/player.c:23-30 | entity id -1, so the player is no longer alive; symbol, points and connection kept |
| Characters.Create | core/character.c:8-15 | symbol, max health, max energy and speed stored unchanged |
| Characters.Default | core/character.c:18-20 | the given symbol with max health 100, max energy 100 and speed 1.0 |
| Util.Min | common/util.c:11-13 | one of the arguments, no greater than either |
| Util.Max | common/util.c:16-18 | one of the arguments, no smaller than either |
| Util.Clamp | common/util.c:21-25 | below the lower bound gives it; an in-range value is returned unchanged; with lo <= hi the result lies in [lo, hi] and is the nearest such point to the value |
| Util.ClampIdempotent | common/util.c:21-25 | clamping twice equals clamping once |
| Util.StrNCopy | common/util.c:28-32 | n == 0 changes nothing; otherwise dest holds the longest prefix of src of at most n-1 characters, NUL-padded through dest[n-1], and cells from n on are untouched |
| Util.CDiv | core/map.c:46 | C division: equals Dafny's for a non-negative dividend and truncates toward zero for a negative one |
| Util.CMod | core/map.c:46 | C remainder: takes the dividend's sign, is smaller in magnitude than the divisor, and CDiv*b + CMod gives back the dividend |
| Arenas.SpellParams | core/arena.c:168-182 | POWER gives damage 10, speed 10, cost 10; BASIC gives damage 5, speed 5, cost 0 |
| Arenas.IndexOfId | core/arena.c:117-124 | the first slot holding the id, or -1 iff no slot holds it |
| Arenas.IndexAt | core/arena.c:127-134 | the first slot whose entity is alive and on the position, or -1 iff there is none; dead entities are never found |
| Arenas.AliveCount | core/arena.c:209-217 | at most the number of entities; equal to it iff all are alive; zero iff none is |
| Arenas.OrderedIdsUnique | core/arena.c:35 | ids issued from the counter are pairwise distinct |
| Arenas.SameIdOrdered | core/arena.c:35 | rewriting an entity in place under its own id keeps the ids increasing |
| Arenas.FirstHit | core/arena.c:60-66 | the first entity that is alive, not the caster, not in the hit set and on the spell's cell; -1 iff there is none |
| Arenas.Collide | core/arena.c:59-74 | with no hittable entity nothing changes; otherwise the spell ends destroyed; only the hit set and the flag of the spell change |
| Arenas.Advanced | core/arena.c:93-97 | the spell pays one interval and moves to spell_next_position; nothing else changes |
| Arenas.Flight | core/arena.c:92-109 | entities only lose health or die; the spell keeps id, caster and damage and ends destroyed or with less than one interval left; a destroyed or uncharged spell is not moved |
| Arenas.SpellTick | core/arena.c:85-89 | a destroyed spell is skipped and changes nothing |
| Arenas.SpellsTick | core/arena.c:84-110 | every spell keeps its id and hit-set invariant and ends destroyed or out of time; entities only take damage |
| Arenas.Cooled | core/arena.c:79-81 | every entity's timers decayed by dt, in place |
| Arenas.Live | core/arena.c:220-231 | the compacted list is no longer than the original |
| Arenas.LiveMembers | core/arena.c:220-231 | every kept spell is an intact spell of the original, and every intact spell is kept |
| Arenas.LiveSnoc | core/arena.c:222-229 | one more loop step appends the spell exactly when it is not destroyed |
| Arenas.LiveOrdered | core/arena.c:220-231 | the compaction is stable: spell ids stay strictly increasing |
| Arenas.FlightHitsAtMostOnce | core/arena.c:59-109 | a flight changes nothing, or damages exactly one entity once: it was alive, not the caster, not yet hit and on the spell's last cell; it is recorded in the hit set and the spell is destroyed |
| Arenas.FlightKeepsSound | core/arena.c:92-109 | with non-negative damage every entity keeps health in [0, max] and alive iff health > 0 |
| Arenas.SpellsTickKeepsSound | core/arena.c:84-110 | the whole spell pass keeps every entity sound |
| Arenas.SpellsTickKeepsDead | core/arena.c:62 | a dead entity is left exactly as it was by the spell pass |
| Arenas.TickLeavesOnlyLiveSpells | core/arena.c:77-114 | after the tick no destroyed spell remains and every spell has less than one interval of move time left |
| Arenas.TickedEntities | core/arena.c:77-114 | a tick keeps the number of entities |
| Arenas.TickedSpells | core/arena.c:77-114 | a tick never adds spells |
| Arenas.TickOnlyKills | core/arena.c:77-114 | every entity keeps its id, and one alive after the tick was alive before |
| Arenas.NoMoveInPlace | core/arena.c:143-154 | a move with DIR_NONE or an unknown code always finds its own cell occupied |
| Arenas.Charged | core/arena.c:189-196 | the caster pays a positive cost exactly, starts the 0.5 s skill cooldown, faces dir and cannot cast again at once; nothing else changes |
| Arenas.MoveKeepsApart | core/arena.c:137-159 | a successful move keeps live entities on distinct cells, and the mover is the entity found on its new cell |
| Arenas.SpellsTickSnoc | core/arena.c:84-110 | the spell pass over one more spell is the earlier pass followed by that spell's flight |
| Arenas.CooledKeepsOrdered | core/arena.c:79-81 | the cooldown pass keeps every id in place |
| Arenas.TickKeepsOrdered | core/arena.c:84-110 | the spell pass keeps entity and spell ids in place and every hit set well formed |
| Arenas.TickKeepsSound | core/arena.c:77-110 | a whole tick keeps health in [0, max_health] with alive iff health > 0, for every entity |
| Arenas.CompactSpells | core/arena.c:220-231 | the write-index loop leaves exactly the intact spells, in original order, in the first w cells |
| Arenas.Arena.constructor | core/arena.c:19-27 | a walled map of the size, no entities, no spells, both id counters 1 |
| Arenas.Arena.AddEntity | core/arena.c:30-39 | at 16 entities: -1 and no change; otherwise appends entity_create under the old counter, which grows by one; spells untouched |
| Arenas.Arena.AddSpell | core/arena.c:42-53 | at 64 spells: -1 and no change; otherwise appends spell_create under the old counter, which grows by one; entities untouched |
| Arenas.Arena.CheckSpellCollision | core/arena.c:59-74 | reports a hit iff some entity is hittable; the entities and spell afterwards are exactly Collide's |
| Arenas.Arena.FlySpell | core/arena.c:92-109 | the sub-step loop produces exactly the Flight outcome |
| Arenas.Arena.CleanupSpells | core/arena.c:220-231 | the spell list becomes exactly its intact spells in order; ids stay ordered; nothing else changes |
| Arenas.Arena.Update | core/arena.c:77-114 | entities become TickedEntities and spells TickedSpells of the old state; counters unchanged; ids stay ordered |
| Arenas.Arena.FlyAll | core/arena.c:84-110 | the spell loop produces exactly SpellsTick of the old lists |
| Arenas.Arena.TickSpell | core/arena.c:85-109 | one slot's spell tick; every other spell slot unchanged |
| Arenas.Arena.DecayCooldowns | core/arena.c:79-81 | the entity list becomes Cooled of the old one |
| Arenas.Arena.FlyNext | core/arena.c:84-110 | one more spell of the loop has flown; later spells untouched |
| Arenas.Arena.MoveSpells | core/arena.c:84-110 | the loop over all spells produces SpellsTick of the old lists |
| Arenas.Arena.GetEntity | core/arena.c:117-124 | the slot of the first entity with the id, or -1 |
| Arenas.Arena.GetEntityAt | core/arena.c:127-134 | the slot of the first live entity on the position, or -1 |
| Arenas.Arena.IsPositionOccupied | core/arena.c:204-206 | holds iff a live entity stands on the position |
| Arenas.Arena.MoveEntity | core/arena.c:137-159 | succeeds iff the entity exists, can move, and the next cell is walkable and free of live entities; then only that entity changes (direction, position, move cooldown); otherwise nothing changes |
| Arenas.Arena.SelectSpellType | server/server.c:412-415 | the entity with the id, if any, records the spell kind; nothing else changes |
| Arenas.Arena.CastSpell | core/arena.c:162-201 | -1 and no change when the caster is missing, dead, cooling down or short of energy; otherwise the caster is charged and a spell of the kind is appended one cell ahead with the caster's id and the next spell id (when the array has room) |
| Arenas.Arena.CountAlive | core/arena.c:209-217 | the number of live entities |
| Arenas.Arena.Destroy | core/arena.c:234-238 | map size 0 and both lists empty |
| Arenas.Moved | core/arena.c:137-159 | only the mover's slot can change, and a changed slot belongs to a live entity off cooldown that now faces the direction and stands one step ahead on a walkable, unoccupied cell |
| Arenas.Selected | server/server.c:411-415 | only the spell type of the steered entity changes, to the chosen kind; every other slot and field is kept |
| Arenas.Cast | core/arena.c:162-201 | only the caster's slot can change, and only when it is alive, off cooldown and has the energy, becoming Charged; at most one spell is appended, below the spell cap, with the next id, the caster, the direction, the cell ahead of the caster and the kind's code |
| Games.IndexOfSymbol | core/game.c:76-83 | the first roster slot holding the symbol, or -1 iff no slot holds it |
| Games.IndexOfEntity | core/game.c:250-263 | the first roster slot bound to the entity id, or -1 iff none is |
| Games.DroppedShape | core/game.c:53-63 | removing an absent player changes nothing; removing a present one shortens the roster by one, keeps earlier entries and shifts later ones down one place in order |
| Games.DroppedUndoesAdmitted | core/game.c:34-63 | removing a player right after a successful add restores the roster |
| Games.LivingCount | core/game.c:149-160 | at most the roster size; zero iff no player is bound to a live entity of the arena |
| Games.Unbound | core/game.c:175-182 | only the binding can change, and only to -1; living status is kept; afterwards a binding to an entity the arena holds is to a live one |
| Games.Unbind | core/game.c:175-182 | every player unbound from a dead entity, in place |
| Games.Award | core/game.c:189-198 | each living player gains exactly n points, every other field and every other player unchanged |
| Games.UnbindKeepsLiving | core/game.c:175-185 | unbinding the dead does not change the living count |
| Games.AwardKeepsLiving | core/game.c:189-198 | awarding points does not change the living count |
| Games.LivingNeverGrows | core/game.c:169-185 | when a tick only kills, the living count after is at most the count before |
| Games.ScoringPaysSurvivors | core/game.c:163-198 | the deaths of a tick (living before minus living after) are never negative, and every player still living gains exactly that many points while nobody else's score moves |
| Games.Credited | core/game.c:250-255 | the roster keeps its length |
| Games.Released | core/game.c:258-263 | the roster keeps its length |
| Games.DeathBookkeeping | core/game.c:248-264 | the first player bound to the killer gains exactly one point, the first bound to the victim alone is unbound; symbols and connection flags are kept |
| Games.WinnerOf | core/game.c:223-230 | a non-NUL result is the symbol of a player with points >= winner_points; with no such player the result is NUL |
| Games.WinnerIffHasWinner | core/game.c:213-230 | with no NUL symbol on the roster, game_get_winner is non-NUL iff game_has_winner |
| Games.ConnectedCount | core/game.c:136-138 | at most the roster size |
| Games.ConnectedSymbols | core/game.c:136-143 | one symbol per connected player |
| Games.Spawned | core/game.c:136-145 | the roster keeps its length |
| Games.Positions | core/game.c:132-141 | the positions of the entities, slot by slot |
| Games.SpawnedPrefix | core/game.c:136-145 | the spawn loop over a prefix of the roster agrees with the loop over the whole roster |
| Games.SpawnBindsOwnEntity | core/game.c:119-146 | after a new arena every connected player is bound to a live entity that carries the player's own symbol |
| Games.IdsAreSlots | core/game.c:136-145 | in a freshly populated arena the entity with id k+1 is in slot k |
| Games.PopulatedSnoc | core/game.c:140-143 | adding an entity at a spawn spot extends the populated list by one symbol and the occupied list by its position |
| Games.NewArena | core/game.c:127-129 | a walled arena of the size with no entities and no spells |
| Games.SpawnEntity | core/game.c:140-144 | one more entity, with the next id, at a spawn spot that avoids every earlier spawn |
| Games.SpawnPosition | core/game.c:86-116 | the position is the map centre or an interior Floor cell not among the occupied positions |
| Games.Game.constructor | core/game.c:13-31 | Waiting, no arena, arena number 0, empty roster, every slot player_create('\0'), parameters stored |
| Games.Game.AddPlayer | core/game.c:34-50 | -1 and no change when the roster is full or holds the symbol; otherwise a connected player with 0 points and no entity is appended at index old count |
| Games.Game.RemovePlayer | core/game.c:53-63 | an out-of-range index changes nothing; otherwise the entry is deleted, later entries shift down one in order and the count drops by one |
| Games.Game.ShiftDown | core/game.c:59-61 | each later slot moves down one, the last slot keeps its old copy |
| Games.Game.GetPlayerIndex | core/game.c:66-83 | the first slot holding the symbol, or -1 |
| Games.Game.CreateArena | core/game.c:119-146 | a fresh walled arena with no spells replaces the old one, the arena number grows by one, and each connected player in roster order gets a new entity (100 health, 100 energy) at a spawn spot and is bound to it |
| Games.Game.BuildArena | core/game.c:127-145 | the new arena and roster are as game_create_arena leaves them |
| Games.Game.SpawnEach | core/game.c:136-145 | the spawn loop binds the roster as Spawned and populates the arena |
| Games.Game.SpawnOne | core/game.c:137-144 | one loop pass: a connected player is spawned and bound, others are skipped |
| Games.Game.BindSpawned | core/game.c:144 | the player's binding becomes the new entity id |
| Games.Game.IsLiving | core/game.c:152-155 | holds iff the player is bound to a live entity of the arena |
| Games.Game.IsBoundToDead | core/game.c:176-179 | holds iff unbinding would change the player |
| Games.Game.CountLivingPlayers | core/game.c:149-160 | the number of players bound to a live entity |
| Games.Game.UnbindDead | core/game.c:175-182 | the roster becomes Unbind of the old roster |
| Games.Game.AwardSurvivors | core/game.c:189-198 | the roster becomes Award of the old roster |
| Games.Game.Tick | core/game.c:169-198 | the arena ticks and the roster is scored: dead players unbound and every survivor paid the deaths of the tick; the grid is kept |
| Games.Game.Score | core/game.c:174-198 | the roster becomes Scored of the old roster |
| Games.Game.Step | core/game.c:163-210 | nothing unless Playing with an arena; otherwise tick and score: while the round goes on, or when it ends with a winner, the spells are exactly TickedSpells of the old arena and the grid is kept; with at most one living player out of more than one, Finished when someone has winner_points, else a new walled arena with no spells and scores kept |
| Games.Game.EndRound | core/game.c:201-209 | round end: Finished when someone has winner_points, else a new walled arena with no spells; nothing, spells and grid included, when the round is not over |
| Games.Game.HasWinner | core/game.c:213-220 | holds iff some player has points >= winner_points |
| Games.Game.GetWinner | core/game.c:223-230 | the first player in roster order with points >= winner_points, or NUL |
| Games.Game.Start | core/game.c:233-245 | nothing unless the game is ready (2 <= count <= max_players); otherwise Playing with a new arena, arena number + 1 and every connected player bound to a fresh entity |
| Games.Game.HandleEntityDeath | core/game.c:248-264 | the roster becomes Released(Credited(old roster)) |
| Games.Game.CreditKiller | core/game.c:250-255 | the first player bound to the killer gains a point |
| Games.Game.ReleaseVictim | core/game.c:258-263 | the first player bound to the victim is unbound |
| Games.Game.Destroy | core/game.c:267-274 | the arena is released |
| Games.HasWinnerIn | core/game.c:213-220 | there is a winner exactly when some player in the roster has reached the winning points; an empty roster has none |
| Sessions.Close | server/session.c:90 | a closed socket is -1 (negative); an already invalid descriptor is left alone |
| Sessions.FirstSlot | server/session.c:57-84 | the first slot the probe hits (active with the token, symbol or socket; or inactive), or -1 iff none does |
| Sessions.ActiveCount | server/session.c:26-100 | the number of active slots, at most the table size |
| Sessions.ActiveCountReplace | server/session.c:40-48 | rewriting one slot changes the active count by exactly the change in that slot's flag |
| Sessions.VacancyExists | server/session.c:37-38 | fewer active slots than slots means some slot is inactive |
| Sessions.NoneActive | server/session.c:16-20 | with every slot inactive the count is 0 and the symbol list empty |
| Sessions.ActiveSymbolsCount | server/session.c:103-111 | one listed symbol per active slot |
| Sessions.ActiveSymbolsHeld | server/session.c:67-74 | a symbol is listed iff an active slot holds it |
| Sessions.SameFlagsSameLists | server/session.c:103-111 | slots that keep flag and symbol keep the count and the symbol list |
| Sessions.LoggedIn | server/server.c:330-347 | the table keeps its size |
| Sessions.LoggedInSeat | server/server.c:330-347 | after a login the first inactive slot holds the new active session with the token, symbol, the sender's socket and exactly the bytes after the login frame |
| Sessions.TokenNamesOneSlot | server/session.c:40-64 | under the room invariant the token lookup finds exactly the slot that holds the token |
| Sessions.NotFullHasVacancy | server/session.c:26-54 | with a limit of at most 8, a room that is not full has an inactive slot, so add refuses only a full room or a held symbol |
| Sessions.Room.constructor | server/session.c:9-23 | every slot inactive with fd -1 and an empty buffer, count 0, next token 1 |
| Sessions.Room.IsFull | server/session.c:98-100 | full iff the number of active slots is at least max_players |
| Sessions.Room.Find | server/session.c:57-84 | the index of the first slot the probe hits |
| Sessions.Room.FindByToken | server/session.c:57-64 | a slot is found iff an active slot holds the token, and the found slot is active with that token |
| Sessions.Room.FindBySymbol | server/session.c:67-74 | the first active slot with the symbol; found iff the symbol is among the active symbols |
| Sessions.Room.FindBySocket | server/session.c:77-84 | an active slot with the socket, or -1 iff there is none |
| Sessions.Room.Add | server/session.c:26-54 | -1 and no change when full or the symbol is held; otherwise the first inactive slot, whatever its socket, becomes active with token = old next_token, next_token + 1, count + 1, empty buffer, no UDP peer; the invariant (count = active slots, distinct tokens below next_token) is kept |
| Sessions.Room.Activate | server/session.c:38-49 | the chosen slot becomes a fresh session with the next token; nothing else changes |
| Sessions.Room.Remove | server/session.c:87-95 | an unknown token changes nothing; otherwise that slot becomes inactive, socket closed, buffer empty, count - 1 |
| Sessions.Room.Update | server/server.c:340-347 | a server write into one slot that keeps flag, token and symbol keeps the invariant and the symbol list |
| Sessions.Room.GetSymbols | server/session.c:103-111 | the active symbols in slot order; count equals their number and session_count |
| Sessions.Room.Destroy | server/session.c:114-122 | every active slot is closed and made inactive, inactive slots are untouched, count 0 |
| Protocol.ClientCodes | net/protocol.h:14-23 | the client message codes are 0..7 in declaration order |
| Protocol.ServerCodes | net/protocol.h:26-38 | the server message codes are 0..10 in declaration order |
| Encoder.CharsOfBytesOf | net/encoder.c:37-41 | a character that fits a C char survives the cast to uint8_t and back |
| Encoder.Wrap16 | net/encoder.c:186-187 | the int16_t cast lands in the int16 range, keeps values already in range and differs from its input by a multiple of 2^16 |
| Encoder.Wrap32 | net/encoder.c:184 | the int32_t cast lands in the int32 range, keeps values already in range and differs by a multiple of 2^32 |
| Encoder.U16 | net/encoder.c:121-122 | two bytes that read back as the value modulo 2^16 (as uint16) and as its int16 cast |
| Encoder.ReadU16 | net/encoder.c:276-287 | a little-endian pair of bytes reads as a value in 0..65535 |
| Encoder.I32 | net/encoder.c:47-51 | four bytes that read back as the int32 cast of the value |
| Encoder.U16At | net/encoder.c:91-94 | a 16-bit field written at any offset reads back at that offset |
| Encoder.I32At | net/encoder.c:111 | a 32-bit field written at any offset reads back at that offset |
| Encoder.WriteHeader | net/encoder.c:14-19 | three bytes that decode_packet_header reads back as the type and the length modulo 2^16 |
| Encoder.DecodeHeader | net/encoder.c:234-238 | the decoded length is a uint16 |
| Encoder.HeaderRoundTrip | net/encoder.c:234-238 | any three bytes are re-encoded from their decoded header exactly |
| Encoder.U16OfBytes | net/encoder.c:236 | a uint16 assembled from two bytes is written back as those two bytes |
| Encoder.Frame | net/encoder.c:14-19 | a header then the payload; when the payload fits 16 bits the header names the type and the payload's exact length |
| Encoder.VersionText | net/encoder.c:24-25 | the C string of the version cut to at most 32 characters, a prefix of it, and all of it when shorter than 32 |
| Encoder.EncodeVersion | net/encoder.c:23-31 | a framed CLIENT_MSG_VERSION whose payload is the length byte then the cut text |
| Encoder.DecodeVersion | net/encoder.c:240-246 | returns 1 + the characters read; fewer than max_len characters; exactly the declared count when it is below max_len |
| Encoder.VersionRoundTrip | net/encoder.c:240-246 | a reader with room for it gets the encoded version text back whole |
| Encoder.EncodeSubscribeInfo | net/encoder.c:33-35 | a bare CLIENT_MSG_SUBSCRIBE_INFO header |
| Encoder.EncodeLogin | net/encoder.c:37-41 | a 4-byte CLIENT_MSG_LOGIN frame from which decode_login recovers a byte-sized symbol |
| Encoder.EncodeLogout | net/encoder.c:43-45 | a bare CLIENT_MSG_LOGOUT header |
| Encoder.EncodeConnectUdp | net/encoder.c:47-51 | a 7-byte frame from which decode_connect_udp recovers the token's int32 cast |
| Encoder.EncodeTrustUdp | net/encoder.c:53-55 | a bare CLIENT_MSG_TRUST_UDP header |
| Encoder.EncodeMovePlayer | net/encoder.c:57-61 | a 4-byte frame from which decode_move_player recovers the direction as a byte (DIR_NONE as 255) |
| Encoder.EncodeCastSkill | net/encoder.c:63-68 | a 5-byte frame from which decode_cast_skill recovers direction byte and spell type |
| Encoder.EncodeVersionResponse | net/encoder.c:72-82 | a framed SERVER_MSG_VERSION: length byte, cut text, compatibility byte |
| Encoder.VersionResponseRoundTrip | net/encoder.c:72-82 | the client reads back the text and, right after it, the compatibility byte |
| Encoder.EncodeStaticInfo | net/encoder.c:84-96 | an 11-byte SERVER_MSG_STATIC_INFO frame |
| Encoder.StaticInfoRoundTrip | net/encoder.c:276-287 | decode_static_info recovers all four values modulo 2^16 |
| Encoder.AtIgnoresTail | net/encoder.c:248-313 | a read inside the payload is the payload's own bytes, whatever follows them in the buffer |
| Encoder.StaticInfoFits | net/encoder.c:276-287 | four values that fit a uint16 come back exactly |
| Encoder.EncodeDynamicInfo | net/encoder.c:98-105 | a count byte then exactly the first count symbols, framed when it fits |
| Encoder.EncodeLoginStatus | net/encoder.c:107-113 | a 9-byte frame from which decode_login_status recovers symbol, status byte and the token's int32 cast |
| Encoder.EncodeUdpConnected | net/encoder.c:115-117 | a bare SERVER_MSG_UDP_CONNECTED header |
| Encoder.EncodeStartGame | net/encoder.c:119-124 | a 5-byte frame whose payload reads as winner_points modulo 2^16 |
| Encoder.EncodeFinishGame | net/encoder.c:126-130 | a 4-byte frame whose payload byte is the winner's symbol |
| Encoder.EncodeWaitArena | net/encoder.c:132-137 | a 5-byte frame whose payload reads as the seconds modulo 2^16 |
| Encoder.EncodeGameEvent | net/encoder.c:224-230 | a 6-byte frame: the symbol byte, then the points modulo 2^16 |
| Encoder.FlattenLength | net/encoder.c:181-217 | records of a fixed size take size bytes each |
| Encoder.FlattenAt | net/encoder.c:192-193 | byte j of record k sits at size * k + j |
| Encoder.ReadCount | net/encoder.c:298-313 | a decoding loop reads at most count records |
| Encoder.ReadCountBounds | net/encoder.c:298-313 | the records read end within len, and fewer than count are read only when the next would overrun len |
| Encoder.ReadCountAll | net/encoder.c:298-313 | when count records fit in len, all count are read |
| Encoder.Records | net/encoder.c:298-313 | one decoded record per iteration of the loop |
| Encoder.RecordAt | net/encoder.c:298-313 | record k is decoded from the bytes size * k past the list's offset |
| Encoder.SliceOfFlatten | net/encoder.c:181-217 | record k's encoding is found size * k past the list's offset |
| Encoder.RecordsOfFlatten | net/encoder.c:298-313 | a list encoded in a row reads back as the same list when the reader expects that many records |
| Encoder.EntityRecord | net/encoder.c:182-191 | the EntityData fields fit their widths and equal the entity's when those already fit |
| Encoder.SpellRecord | net/encoder.c:198-204 | the SpellData fields fit their widths and equal the spell's when those already fit |
| Encoder.PlayerRecord | net/encoder.c:211-214 | the points fit a uint16 and equal the player's when they already fit |
| Encoder.EncodeEntityData | net/protocol.h:55-64 | 13 bytes |
| Encoder.EntityDataRoundTrip | net/protocol.h:55-64 | an entity record whose fields fit decodes back from its 13 bytes |
| Encoder.EncodeSpellData | net/protocol.h:67-73 | 10 bytes |
| Encoder.SpellDataRoundTrip | net/protocol.h:67-73 | a spell record whose fields fit decodes back from its 10 bytes |
| Encoder.EncodePlayerData | net/protocol.h:76-79 | 3 bytes |
| Encoder.PlayerDataRoundTrip | net/protocol.h:76-79 | a player record whose points fit decodes back from its 3 bytes |
| Encoder.EntityRecords | net/encoder.c:181-194 | one EntityData per entity, in order |
| Encoder.SpellRecords | net/encoder.c:197-207 | one SpellData per spell, in order |
| Encoder.PlayerRecords | net/encoder.c:210-217 | one PlayerData per player, in order |
| Encoder.GameStepPayload | net/encoder.c:168-217 | 3 + 13 bytes per entity + 10 per spell + 3 per player |
| Encoder.EncodeGameStep | net/encoder.c:168-222 | that length after the header, and framed when it fits 16 bits |
| Encoder.ReadLists | net/encoder.c:289-316 | the three loops: no list longer than its count, each read where the previous ends, and consumed bytes never past len |
| Encoder.DecodeGameStep | net/encoder.c:289-316 | counts are the three leading bytes; each list is at most its count; consumed within len |
| Encoder.EntityListRead | net/encoder.c:298-301 | fitting entity records in a row read back through the loop |
| Encoder.SpellListRead | net/encoder.c:304-307 | fitting spell records in a row read back through the loop |
| Encoder.PlayerListRead | net/encoder.c:310-313 | fitting player records in a row read back through the loop |
| Encoder.Parts | net/encoder.c:168-217 | where the parts of a concatenated payload sit |
| Encoder.GameStepPayloadLayout | net/encoder.c:168-217 | encode_game_step lays out counts, then entity, spell and player records |
| Encoder.ConcatLayout | net/encoder.c:176-217 | counts followed by fitting records form that layout |
| Encoder.SmallCount | net/encoder.c:172-174 | a count below 256 survives the uint8_t cast |
| Encoder.LayoutReads | net/encoder.c:289-316 | the three loops read such a layout back exactly, consuming all of it |
| Encoder.ReadListsParts | net/encoder.c:289-316 | the decoded step is assembled from the three loops' lists |
| Encoder.ReadListsSpells | net/encoder.c:303-307 | the spell loop starts where the entity loop ended |
| Encoder.ReadListsPlayers | net/encoder.c:309-313 | the player loop starts where the spell loop ended |
| Encoder.LayoutDecodes | net/encoder.c:289-316 | decode_game_step reads the layout back when every list has fewer than 256 records |
| Encoder.GameStepRoundTrip | net/encoder.c:289-316 | a frame from encode_game_step decodes to the records of the arena's lists |
| Encoder.GameStepOverrun | net/encoder.c:293-301 | as written, a well-formed frame announcing 17 entities fills 17 entity slots, one more than MAX_ENTITIES |
| Encoder.DecodeGameStepCapped | net/encoder.c:289-316 | each list stops at its array's capacity and each count is the number actually read |
| Encoder.LayoutDecodesCapped | net/encoder.c:289-316 | the capped reader reads every layout that fits the arrays back exactly |
| Encoder.GameStepCappedRoundTrip | net/encoder.c:289-316 | every frame the server builds for an arena within its limits decodes, capped, to that arena's lists |
| Encoder.EntityIds | net/encoder.c:151-155 | 4 bytes per player, the i-th reading back as player i's entity id (int32 cast) |
| Encoder.TerrainBytes | net/encoder.c:158-161 | one byte per cell, the cell's code |
| Encoder.EncodeStartArena | net/encoder.c:139-166 | 5 + 4 per player + one per cell after the header, framed when it fits |
| Encoder.StartArenaLayout | net/encoder.c:139-166 | the arena number, player count, map size, every entity id and every cell read back where they were written |
| Encoder.DecodeLogin | net/encoder.c:248-251 | the symbol is one byte wide and is the payload's first byte |
| Encoder.DecodeConnectUdp | net/encoder.c:253-256 | the token is a 32-bit integer whose little-endian bytes are the payload's first four |
| Encoder.DecodeMovePlayer | net/encoder.c:258-261 | the direction is the payload's first byte |
| Encoder.DecodeCastSkill | net/encoder.c:263-267 | direction and spell-type byte are the payload's first two bytes, in that order |
| Encoder.DecodeStaticInfo | net/encoder.c:276-287 | the four fields are 16-bit unsigned values whose little-endian encodings, in order, are the payload's first eight bytes |
| Encoder.StaticInfoBytes | net/encoder.c:276-287 | the four 16-bit reads at offsets 0, 2, 4, 6 re-encode to the first eight bytes |
| Encoder.DecodeLoginStatus | net/encoder.c:269-274 | symbol, status and 32-bit token re-encode to the payload's first six bytes |
| Encoder.DecodeEntityData | net/encoder.c:298-301 | the record fits its wire fields and encoding it gives back the 13 bytes it was read from |
| Encoder.EntityDataBytes | net/encoder.c:298-301 | the field-by-field reads of an entity record re-encode to its 13 bytes |
| Encoder.DecodeSpellData | net/encoder.c:304-307 | the record fits its wire fields and encoding it gives back the 10 bytes it was read from |
| Encoder.SpellDataBytes | net/encoder.c:304-307 | the field-by-field reads of a spell record re-encode to its 10 bytes |
| Encoder.DecodePlayerData | net/encoder.c:310-313 | the record fits its wire fields and encoding it gives back the bytes it was read from |
| Encoder.I16Bytes | net/encoder.c:298-307 | a signed 16-bit read re-encodes to the two bytes it was read from |
| Encoder.U16Bytes | net/encoder.c:276-287 | an unsigned 16-bit read re-encodes to the two bytes it was read from |
| Encoder.I32Bytes | net/encoder.c:253-256 | a 32-bit read re-encodes to the four bytes it was read from |
| Framing.FrameSize | server/server.c:225-227 | a frame is at least its 3-byte header long |
| Framing.HeaderOfPrefix | server/server.c:225-227 | a frame's header reads the same from the frame cut out of the buffer |
| Framing.FramesTile | server/server.c:222-256 | the frames handled and the bytes left, laid end to end, are exactly the buffer: nothing lost or repeated |
| Framing.ConcatCons | client/app.c:151-175 | laying out one frame, then the others |
| Framing.RestIncomplete | server/server.c:223-233 | what stays in the buffer never holds a whole frame |
| Framing.FramesWhole | client/app.c:152-165 | every frame handled is exactly as long as its own header declares |
| Servers.BroadcastsReachActive | server/server.c:483-490 | a broadcast sends exactly one TCP copy of the same bytes per active session |
| Servers.StepRoutesReachActive | server/server.c:470-479 | a game step reaches every active session exactly once with the same bytes; the TCP copies are exactly those a broadcast would send |
| Servers.LoginStatusOf | server/server.c:309-319 | OK iff the symbol is in 'A'..'Z', not held by an active session and the room not full; INVALID_CHAR wins over ALREADY_USED, which wins over ROOM_FULL |
| Servers.Steered | server/server.c:382-410 | an entity is steered iff the session is active, the game Playing and the roster player with its symbol is bound to an entity, and then it is that entity |
| Servers.Unseat | server/server.c:371 | the roster loses the player with the symbol, as game_remove_player at game_get_player_index does |
| Servers.Depart | server/server.c:372 | the session's own slot is closed, made inactive and emptied; count - 1 |
| Servers.Advance | server/server.c:166-181 | a game still running stays Playing; a finished one goes back to Waiting with a player at the winning score, who is the winner returned |
| Servers.Play | server/server.c:167 | after game_step the game is Playing, or Finished with a winner |
| Servers.Conclude | server/server.c:171-181 | the winner is game_get_winner's and the game goes back to Waiting, roster untouched |
| Servers.Launch | server/server.c:192 | game_start makes the game Playing on a fresh arena with the roster respawned |
| Servers.Broadcast | server/server.c:483-490 | the sends are exactly one TCP copy per active session in slot order |
| Servers.SendStep | server/server.c:470-479 | each active session's copy over UDP once confirmed, over TCP before, none for inactive slots |
| Servers.BroadcastGameStep | server/server.c:464-480 | nothing without an arena; otherwise the routed copies of encode_game_step of the arena's lists and the roster |
| Servers.Tick | server/server.c:165-182 | the step's routed copies, then FinishGame with the winner to every active session when the game ended; the game ends Playing or Waiting with a winner |
| Servers.StepSends | server/server.c:168-178 | the routed game step followed, when finished, by the winner broadcast |
| Servers.Kickoff | server/server.c:185-198 | StartGame to every active session, then game_start, then the new arena's StartArena to every active session |
| Servers.HandleMove | server/server.c:382-395 | a steered entity moves as arena_move_entity decides; otherwise entities are unchanged; spells never change |
| Servers.HandleCast | server/server.c:397-419 | for a steered entity the kind byte (2 is POWER, else BASIC) is recorded on it and arena_cast_spell runs; otherwise nothing changes |
| Servers.RunGame | server/server.c:165-198 | a game the loop runs is never left Finished; a Waiting game not ready is untouched; a ready one becomes Playing with the roster respawned |
| Servers.Fire | server/server.c:411-416 | the entity's spell kind is set, then the spell cast, as the arena functions say |
| Servers.FrameHandled | server/server.c:239-254 | handling and removing the leading frame keeps the loop's progress invariant |
| Servers.Drained | server/server.c:223-233 | when no whole frame is left, every frame was handled and the incomplete rest kept, or a Logout emptied the buffer |
| Servers.Server.constructor | server/server.c:30-78 | an empty room and a Waiting game without arena or players, with the same player limit |
| Servers.Server.Accept | server/server.c:203-219 | a valid socket goes to the first slot that is inactive and has no socket; with no such slot it is dropped |
| Servers.Server.BroadcastPlayers | server/server.c:124-128 | the DynamicInfo list of active symbols to every active session |
| Servers.Server.HandleVersion | server/server.c:270-275 | VersionResponse of "1.0.0", marked compatible, to the sender |
| Servers.Server.HandleSubscribe | server/server.c:277-291 | StaticInfo with UDP port, map size, winning score and player limit, then the player list, to the sender |
| Servers.Server.HandleLogin | server/server.c:293-366 | the status is LoginStatusOf the symbol; a failure changes nothing and answers with token 0; a success seats the session in the first inactive slot with the next token, adds the player, answers OK with the token and broadcasts the player list |
| Servers.Server.Welcome | server/server.c:321-364 | a successful login's room, roster and sends |
| Servers.Server.LoginVerdict | server/server.c:313-319 | the scans of the room give LoginStatusOf |
| Servers.Server.Leave | server/server.c:368-380 | the player leaves the roster, the slot is closed, inactive and empty, and the new list goes to the remaining sessions |
| Servers.Server.Hangup | server/server.c:129-133 | a socket that never logged in is closed and its buffer emptied |
| Servers.Server.HandleUdp | server/server.c:439-461 | a ConnectUdp datagram with a known token records the sender on that session, marks it confirmed and answers UdpConnected over its TCP socket; anything else changes nothing |
| Servers.Server.ConfirmUdp | server/server.c:446-459 | the ConnectUdp branch on the room alone: the room stays valid, its slots become UdpConfirmed of the old ones and the reply is UdpReply of them |
| Servers.UdpConfirmedSpec | server/server.c:450-459 | a ConnectUdp changes only the first active session holding the token, which gets the sender's address and is marked confirmed; UdpConnected is sent exactly when such a session exists |
| Servers.UdpConfirmedIdempotent | server/server.c:450-454 | the same ConnectUdp received again leaves the sessions as the first one did |
| Servers.Server.HandlePacket | server/server.c:259-431 | by the frame's type: a Login has HandleLogin's effect (LoginHandled); a Logout from an active session has Leave's effect and from an inactive one changes and sends nothing (LogoutHandled); any other type sends CommandSends, moves or casts as CommandArena says, and leaves room and roster untouched (CommandHandled); the session continues in a slot whose buffer is unchanged, what followed the frame (after a login) or empty (after a logout) |
| Servers.Server.LogoutPacket | server/server.c:368-380 | a Logout from an active session has Leave's effect; from an inactive one nothing changes and nothing is sent |
| Servers.Server.Reply | server/server.c:268-291 | the replies a command earns: VersionResponse for Version, StaticInfo then the player list for SubscribeInfo, nothing otherwise |
| Servers.Server.Steer | server/server.c:382-419 | the arena's entity and spell lists become CommandArena of the old ones for the steered entity; room and roster stay as they were |
| Servers.Server.Trim | server/server.c:236-254 | when the handler left the buffer's length as it was, the leading frame is shifted out; when it changed the length (a login that already consumed the frame, a logout that emptied the slot) the buffer is left alone; either way the buffer shrinks and the frames after the leading one, and the incomplete rest, are kept in order |
| Servers.LeadingPayload | server/server.c:236-264 | the leading frame of the buffer is exactly Frame(type, payload) for the payload handed to the handler, whose length is the header's data length: the inverse of the encoder's framing |
| Servers.CastKind | server/server.c:406 | a raw byte 1 or 2 names its own kind; any byte but 2 is BASIC |
| Servers.Server.Command | server/server.c:268-291 | Version and SubscribeInfo get their replies, MovePlayer and CastSkill the arena effects of CommandArena for the steered entity; TrustUdp, ConnectUdp over TCP and unknown types send nothing and change nothing; room and roster stay as they were |
| Servers.Server.LoginPacket | server/server.c:293-366 | the login's effect as HandleLogin states it (status LoginStatusOf; a refusal changes nothing; an accepted login seats the session, adds the player, answers with the token and broadcasts the list); the session's buffer is the old one or what followed the login frame |
| Servers.Server.Consume | server/server.c:236-254 | one turn: the slot then holds what followed the leading frame, or nothing after a Logout, and the buffer shrinks |
| Servers.Server.ProcessBuffer | server/server.c:222-256 | the frames handled are the buffer's leading frames in order; all were handled and the incomplete rest kept, or a Logout emptied the buffer |
| Servers.Server.Disconnect | server/server.c:116-149 | the slot ends closed, inactive and empty; a logged-in player also leaves the roster and the list is rebroadcast |
| Servers.Server.Receive | server/server.c:99-153 | a slot without socket, with a full buffer, or a would-block read changes nothing; end of stream and hard errors disconnect (an active session leaves the roster, one less session, the new player list broadcast; an inactive one sends nothing); bytes (cut to the free space) are processed frame by frame, the slot keeping the incomplete rest or emptied by a Logout |
| Servers.Server.Feed | server/server.c:105-114 | the bytes are appended and the buffer's leading frames handled; the slot then holds exactly the incomplete rest, or nothing after a Logout |
| Servers.Server.Destroy | server/server.c:498-506 | every session closed and inactive, count 0, the arena released |
| Servers.Server.Admit | server/server.c:321-351 | the new session in the first inactive slot with the next token, and the player added to the roster |
| Servers.Server.Seat | server/server.c:302-351 | the room after a successful login is LoggedIn: the first inactive slot takes the sender's socket and what followed the login frame; a different old slot loses socket and buffer |
| ClientStates.CloseFd | client/state.c:53-58 | an open descriptor becomes -1; a closed one is left alone |
| ClientStates.Created | client/state.c:9-43 | in the menu, both sockets closed, an empty buffer, and well-formed |
| ClientStates.ResetOf | client/state.c:51-73 | back to the menu with both sockets closed and the session forgotten (token, UDP flag, players, records, winner, buffer); connection settings kept |
| ClientStates.ResetIsCreatedWithSettings | client/state.c:51-73 | a reset state is a created one apart from exactly the fields a reset keeps |
| ClientStates.ResetIdempotent | client/state.c:51-73 | a reset keeps the shapes, and a second reset changes nothing |
| ClientStates.WithState | client/state.c:46-48 | only the state changes |
| ClientStates.Destroyed | client/state.c:76-83 | both sockets end closed and nothing else changes |
| ClientStates.DestroyAfterReset | client/state.c:51-83 | destroying a reset state changes nothing |
| Input.KeyToDirection | ui/input.c:22-35 | WASD in either case as direction_from_char reads them, the four arrow keys, and DIR_NONE for every other key |
| Input.KeyRolesExclusive | ui/input.c:38-60 | quit, spell, action, confirm and direction keys never overlap, and 'Q' is not a quit key |
| Input.IsQuitKey | ui/input.c:38-40 | a quit key is not a spell, action or direction key |
| Input.IsActionKey | ui/input.c:43-45 | an action key is not a direction key |
| Input.IsConfirmKey | ui/input.c:48-50 | a confirm key is neither a direction key nor a quit key |
| Input.IsSpell1Key | ui/input.c:53-55 | a first-spell key is not the second-spell, action or a direction key |
| Input.IsSpell2Key | ui/input.c:58-60 | a second-spell key is not an action or direction key |
| Menus.EditAddress | ui/menu.c:222-274 | the cursor stays within the text and the text below 64 characters and free of NUL; a printable key with room is inserted at the cursor and the cursor advances; only printable, Backspace and Delete keys change the text; Delete keeps the cursor |
| Menus.BackspaceUndoesInsert | ui/menu.c:225-244 | Backspace right after typing a printable key restores text and cursor |
| Menus.DeleteUndoesInsert | ui/menu.c:225-258 | Left then Delete after typing a printable key restores text and cursor |
| Menus.EditCharacter | ui/menu.c:277-287 | the field only ever holds NUL or 'A'..'Z'; it takes a letter iff the key is one, upper-casing lower-case letters |
| Menus.PassedKey | ui/menu.c:220-290 | 0 or the key itself, and the key itself when no field has the focus |
| Menus.CommandKeysPass | ui/menu.c:220-290 | Escape and both Enter keys always come back to the application |
| Menus.FocusFor | ui/menu.c:197-216 | never both fields; the address iff not connected or incompatible; the character iff connected, compatible and not logged in |
| Menus.WithConnection | ui/menu.c:609-618 | any status but Connected forgets server info, version info, login and player count, keeping the rest |
| Menus.WithPlayers | ui/menu.c:642-647 | the count as given, current players min(count, 8), the first min(count, 8) symbols copied and the other cells kept |
| Menus.DisconnectedNotFull | ui/menu.c:609-618 | after losing the server the menu never reports it full and gives the address field the focus |
| Menus.Menu.ServerAddr | ui/menu.c:660-662 | the address text has no NUL and fits its 64 cells |
| Menus.Menu.constructor | ui/menu.c:159-190 | the default address cut to 63 characters with the cursor at its end and the focus, the default character, nothing known of a server |
| Menus.Menu.AddressLength | ui/menu.c:223 | strlen of the address field |
| Menus.Menu.Insert | ui/menu.c:227-230 | the shifting loop leaves the text with the key inserted at the position |
| Menus.Menu.Remove | ui/menu.c:235-252 | the shifting loop leaves the text with the character at the position removed |
| Menus.Menu.HandleKey | ui/menu.c:220-290 | the focused address field edits as EditAddress says, a key it passes goes to the focused character field as EditCharacter says, and the return value is PassedKey |
| Menus.Menu.EditAddressField | ui/menu.c:222-274 | the address field changes exactly as EditAddress says |
| Menus.Menu.DeleteAtCursor | ui/menu.c:235-252 | Backspace and Delete edit as EditAddress says |
| Menus.Menu.MoveCursor | ui/menu.c:254-272 | Left, Right, Home and End move only the cursor, as EditAddress says |
| Menus.Menu.EditCharacterField | ui/menu.c:277-287 | the character field changes exactly as EditCharacter says |
| Menus.Menu.Update | ui/menu.c:193-217 | the focus becomes FocusFor the connection, compatibility (true until version info arrives, then the flag) and login status |
| Menus.Menu.SetConnectionStatus | ui/menu.c:609-618 | the status becomes WithConnection of the old one |
| Menus.Menu.SetLoginStatus | ui/menu.c:621-623 | only the login status changes |
| Menus.Menu.SetVersionInfo | ui/menu.c:626-630 | the version is kept to 31 characters, with its compatibility, and marked known |
| Menus.Menu.SetServerInfo | ui/menu.c:633-639 | the four settings are stored and marked known |
| Menus.Menu.SetPlayers | ui/menu.c:642-647 | the status becomes WithPlayers of the old one |
| Menus.Menu.SetCountdown | ui/menu.c:650-652 | only the countdown changes |
| Menus.Menu.SetUdpConfirmed | ui/menu.c:655-657 | only the UDP confirmation changes |
| Menus.Menu.IsServerFull | ui/menu.c:686-689 | the menu's answer is ServerFull of its server info (a count at or over the maximum), and implies that info has arrived |
| Menus.Menu.IsLogged | ui/menu.c:670-672 | logged exactly when the login status is Logged, and then the name field never takes the focus |
| Menus.Menu.IsConnected | ui/menu.c:675-677 | connected exactly when the status is Connected; otherwise the focus goes to the address field |
| ArenaViews.IndexOf | ui/arena_view.c:556-564 | the first index holding the id, or -1 iff the id is absent |
| ArenaViews.UpsertKeepsDistinct | ui/arena_view.c:554-575 | an upsert keeps ids distinct, and the id is present afterwards iff it was present or there was room |
| ArenaViews.SetPlayerUpserts | ui/arena_view.c:554-575 | setting a player keeps ids distinct and at most 8 entries; the player is present iff its id was or there was room; other players stay and nothing else appears |
| ArenaViews.EntityEntry | ui/arena_view.c:588-625 | the new fields under the same id; a new entity gets damage time 0 |
| ArenaViews.SetEntityUpserts | ui/arena_view.c:583-626 | setting an entity keeps ids distinct and at most 32 entries; other entries untouched; the damage time changes only on a loss of health |
| ArenaViews.SpellEntry | ui/arena_view.c:637-664 | the new position, direction, type and flag; a new spell's previous cell is its cell, with the interpolation done |
| ArenaViews.SetSpellUpserts | ui/arena_view.c:634-666 | setting a spell keeps ids distinct and at most 64 entries; other entries untouched; a spell that stays on its cell keeps its previous cell |
| ArenaViews.Dimension | ui/arena_view.c:707-713 | width 27 + 1 + 2 * map size + 2, height map size + 6 |
| ArenaViews.ArenaView.constructor | ui/arena_view.c:363-377 | arena 1, no current player, no countdown, not finished, empty tables, looking down |
| ArenaViews.ArenaView.SetPlayer | ui/arena_view.c:554-575 | the players table becomes PlayersAfterSet of the old one; the rest is unchanged |
| ArenaViews.ArenaView.FindPlayer | ui/arena_view.c:556-564 | the scan returns IndexOf the id |
| ArenaViews.ArenaView.SetEntity | ui/arena_view.c:583-626 | the entities table becomes EntitiesAfterSet of the old one; the rest is unchanged |
| ArenaViews.ArenaView.FindEntity | ui/arena_view.c:587-608 | the scan returns IndexOf the id |
| ArenaViews.ArenaView.SetSpell | ui/arena_view.c:634-666 | the spells table becomes SpellsAfterSet of the old one; the rest is unchanged |
| ArenaViews.ArenaView.FindSpell | ui/arena_view.c:636-651 | the scan returns IndexOf the id |
| ArenaViews.ArenaView.ClearPlayers | ui/arena_view.c:578-580 | no players, nothing else changes |
| ArenaViews.ArenaView.ClearEntities | ui/arena_view.c:629-631 | no entities, nothing else changes |
| ArenaViews.ArenaView.ClearSpells | ui/arena_view.c:669-671 | no spells, nothing else changes |
| ArenaViews.ArenaView.SetCurrentPlayer | ui/arena_view.c:674-677 | only the current player and direction change |
| ArenaViews.ArenaView.SetLocalDirection | ui/arena_view.c:680-682 | only the local direction changes |
| ArenaViews.ArenaView.SetGameFinished | ui/arena_view.c:685-688 | the game is marked finished with the winner, nothing else changes |
| ArenaViews.ArenaView.SetNextArena | ui/arena_view.c:691-694 | only the countdown and the arena winner change |
| ArenaViews.ArenaView.SetArenaNumber | ui/arena_view.c:549-551 | only the arena number changes |
| ArenaViews.ArenaView.GetDimension | ui/arena_view.c:707-713 | the dimensions are Dimension of the map size |
| ArenaViews.PlayersAfterSet | ui/arena_view.c:554-575 | entries with other ids are kept; an existing id is overwritten in place; a new id is appended only while there is room |
| ArenaViews.EntitiesAfterSet | ui/arena_view.c:583-626 | entries with other ids are kept; a new id is appended with no damage time only while there is room; if the id was present or there was room, the entity is shown with the new fields |
| ArenaViews.SpellsAfterSet | ui/arena_view.c:634-666 | entries with other ids are kept; a new id is appended only while there is room; if present or there was room, the spell shows the new position and active flag |
| ClientApps.LastIndexOf | client/app.c:330-335 | strrchr: the index holds the character and none follows it; -1 exactly when the character does not occur |
| ClientApps.LeadingSpaces | client/app.c:342 | the white space atoi skips: every counted character is white space and the next is not |
| ClientApps.DigitRun | client/app.c:342 | the digits atoi reads: every counted character is a digit and the next is not |
| ClientApps.DigitChar | client/app.c:36 | the character printed for a digit is a digit of that value |
| ClientApps.Decimal | client/app.c:36 | %d of a natural number is a non-empty run of digits whose value is the number |
| ClientApps.AtoiDecimal | client/app.c:342 | atoi reads the decimal text of any natural number back as that number |
| ClientApps.ParseServerAddr | client/app.c:329-348 | the host has at most 255 characters and no NUL; the port is always within 1..65535; an address without ':' is all host with port 3042 |
| ClientApps.SplitAddress | client/app.c:330-347 | the same bounds on the text of the address: host cut at the last ':' and at 255 characters, out-of-range ports replaced by 3042 |
| ClientApps.FormatAddr | client/app.c:33-36 | the default address "host:port" fits the 64-byte field and holds no NUL |
| ClientApps.ParseFormatRoundTrip | client/app.c:329-348 | an address formatted from a host and a valid port parses back to that host and that port whenever it fits the field |
| ClientApps.ParseSeparated | client/app.c:337-345 | a host without NUL, a ':' and a valid run of digits parse to that host and the digits' value |
| ClientApps.SeparatedText | client/app.c:330 | in host ':' digits the last ':' is the separator, and the text has no NUL when the host has none |
| ClientApps.VersionReply | client/app.c:191-198 | the version kept has fewer than 33 characters and is exactly as long as announced when the announced length fits; the compatibility flag is one byte |
| ClientApps.LoginStatusFor | client/app.c:243-264 | the menu shows "logged" exactly for LOGIN_OK, some status exactly for the four known codes, and never "not logged" |
| ClientApps.SymbolsAfter | client/app.c:228-231 | the first min(count, 8) symbol cells take the payload's symbols in order, the other cells keep theirs |
| ClientApps.Survivor | client/app.c:299-305 | a non-NUL survivor is the symbol of some entity with health left; with every entity dead it is NUL |
| ClientApps.StateAfter | client/app.c:184-326 | handling a message keeps the client state well formed, never touches the buffer, host, port, TCP socket, symbol, direction or selected spell, ignores frames shorter than a header, and changes the records only for a game step |
| ClientApps.SendsFor | client/app.c:184-326 | a message is answered with at most one frame, and a frame shorter than a header with none |
| ClientApps.UdpHandshake | client/app.c:247-257 | the token goes out over UDP exactly when the login succeeded and the UDP socket opened |
| ClientApps.ReplyFramesEncoded | client/app.c:202-204 | the subscription, UDP trust and logout frames the client sends are exactly what the encoder writes for them |
| ClientApps.Run | client/app.c:151-175 | handling frames one after another keeps the state well formed and does not touch the stream buffer |
| ClientApps.BufferIrrelevant | client/app.c:184-326 | what a message does to the state does not depend on the stream buffer |
| ClientApps.RunSnoc | client/app.c:151-175 | handling one more frame extends the fold of states and sends by that frame's step |
| ClientApps.LoginHandshake | client/app.c:238-257 | a successful login status built by the server leaves the client waiting with the server's token, and the client sends back a UDP frame the server decodes to that very token |
| ClientApps.LoginAccepted | client/app.c:243-257 | any login-status frame reporting success makes the client wait, keep the token, take the UDP socket and send the token to the server's UDP port |
| ClientApps.LoginStatusFrame | client/app.c:238-266 | a login-status frame is handled by the login-status branch and answered by the UDP handshake only |
| ClientApps.LoginStatusesReachMenu | client/app.c:243-264 | each of the four login statuses the server encodes reaches the menu as the matching menu status |
| ClientApps.GameStepReachesClient | client/app.c:312-320 | a game step the server encodes for lists that fit the client's arrays reaches the client's state whole: entity, spell and player records exactly the server's, nothing else changed |
| ClientApps.GameStepOutcome | client/app.c:312-320 | a GAME_STEP frame changes only the three record lists (and the view fields synced from them), leaves the menu alone and sends nothing |
| ClientApps.StaticInfoReachesClient | client/app.c:208-225 | a STATIC_INFO frame of four uint16 values leaves the client with exactly those settings, in the menu, nothing else changed |
| ClientApps.DynamicInfoReachesClient | client/app.c:227-236 | a DYNAMIC_INFO frame for fewer than 256 players sets the count to exactly that number and the first Min(count, 8) symbols to the server's, keeping the other cells |
| ClientApps.FinishGameReachesClient | client/app.c:286-291 | a FINISH_GAME frame for a one-byte symbol ends the game with exactly that winner, nothing else changed |
| ClientApps.GameStepFits | client/app.c:313 | such a game step's payload fits its 16-bit length field |
| ClientApps.StatusFor | client/app.c:62-86 | connected exactly when waiting, playing, after the game or in the menu with an open socket; connecting exactly while connecting; not found exactly when disconnected; never "lost" |
| ClientApps.FirstWithSymbol | client/app.c:110-116 | the index of the first entity with the symbol, or -1 exactly when no entity has it |
| ClientApps.PlayerRows | client/app.c:106-120 | one player row per record, row i carrying id i |
| ClientApps.EntityRows | client/app.c:123-127 | one entity row per record, row i built from record i with scales of 100 |
| ClientApps.SpellsViewFresh | client/app.c:100-133 | after the table is cleared, spells with distinct ids are entered as new, in order, each drawn on its own cell |
| ClientApps.HostField | client/app.c:34-35 | the host copied has at most 255 characters and no NUL |
| ClientApps.StartPort | client/app.c:36-40 | the port the client starts with is always positive |
| ClientApps.DefaultAddress | client/app.c:32-37 | the default address fits the 64-byte field and holds no NUL |
| ClientApps.DefaultAddressParses | client/app.c:32-43 | the default address put in the menu parses back to the host and the port the client was started with |
| ClientApps.Datagram | client/app.c:573-575 | a datagram is cut to the first MAX_PACKET_SIZE bytes |
| ClientApps.MenuAfter | client/app.c:184-326 | a message never changes the menu's connection status, keeps its player list at its fixed length, and a frame shorter than a header changes nothing |
| ClientApps.ViewAfter | client/app.c:184-326 | a message never changes the arena number, and a frame shorter than a header changes nothing |
| ClientApps.MenuRun | client/app.c:151-175 | handling frames one after another never changes the menu's connection status |
| ClientApps.ViewRun | client/app.c:151-175 | handling frames one after another never changes the arena number |
| ClientApps.ScreenRunSnoc | client/app.c:151-175 | one more frame extends the menu and view folds by that frame's step, and there is a game step among the frames exactly when there was one before or the new frame is one |
| ClientApps.ScreenBufferIrrelevant | client/app.c:184-326 | what a message does to the menu and the view does not depend on the stream buffer |
| ClientApps.StepFolds | client/app.c:164-173 | handling the leading frame of the buffer extends every fold (state, sends, menu, view) by that frame |
| ClientApps.FramesCut | client/app.c:152-173 | cutting the leading whole frame leaves the remaining frames and the same incomplete tail |
| ClientApps.FramesStep | client/app.c:152-173 | the loop's frames handled so far plus the frames still in the buffer are always the frames of the original buffer |
| ClientApps.FramesDone | client/app.c:152-162 | when no whole frame is left, every frame has been handled and the buffer holds exactly the incomplete tail |
| ClientApps.ConnectAfter | client/app.c:583-621 | the version frame is sent exactly when a socket opened, connected and became writable; otherwise the socket is closed and the server shown not found, the client disconnected when no socket opened and in the menu otherwise; nothing else of the state changes |
| ClientApps.OpenedAfter | client/app.c:595-620 | with a socket open: the version is sent exactly when it connects and becomes writable; otherwise it is closed and the client is back in the menu |
| ClientApps.ConnectAnnouncesVersion | client/app.c:615-618 | the frame a successful connection sends is a VERSION frame the server decodes as "1.0.0" |
| ClientApps.LoggedOut | client/app.c:445-448 | logging out resets the state, shows not connected and not logged in, and sends a logout frame exactly when the TCP socket is open |
| ClientApps.LogOutClosesSockets | client/app.c:624-632 | after logging out both sockets are closed, the client is in the menu, and the server received a logout frame exactly when it was connected |
| ClientApps.MenuCommandAfter | client/app.c:440-476 | the main loop stops only on Escape, and then nothing else changes and nothing is sent |
| ClientApps.EscapeAfter | client/app.c:442-457 | Escape either stops the main loop and changes nothing else, or leaves the server, not connected and not logged in |
| ClientApps.EnterAfter | client/app.c:458-476 | Enter keeps the main loop running and the state well formed |
| ClientApps.PlayingKeyAfter | client/app.c:488-513 | a key while playing keeps the main loop running and the state well formed |
| ClientApps.InputAfter | client/app.c:435-535 | a key keeps the state well formed; the main loop stops only on Escape in the menu, waiting or disconnected states, and then nothing else changes and nothing is sent |
| ClientApps.MoveKeyMovesPlayer | client/app.c:504-510 | while playing, a direction key records the direction and sends one move frame the server decodes to that direction; nothing is sent with the socket closed |
| ClientApps.ActionKeyCasts | client/app.c:500-503 | while playing, the space bar sends one cast frame the server decodes to the last direction and the selected spell, and nothing else changes |
| ClientApps.EnterLogsIn | client/app.c:466-474 | connected but not logged in, Enter with a character sends a login frame the server decodes to that character, and the client keeps it as its symbol |
| ClientApps.EnterConnects | client/app.c:459-465 | not connected, Enter with an address connects to the host and port the address parses to |
| ClientApps.ReadTcp | client/app.c:548-568 | bytes are appended, as many as fit, exactly when the buffer has room and a non-empty read arrived; the connection is lost exactly when the buffer has room and the read returned zero bytes, the server closed it, or a real (not would-block) error occurred |
| ClientApps.ClientApp.constructor | client/app.c:25-49 | a fresh state with the host and a positive port, the menu showing the default address and 'A', not connected and not logged in, and an empty arena view of 20 cells and 5 points |
| ClientApps.ClientApp.SyncMenuState | client/app.c:59-96 | the menu's status becomes the one synced from the state; its text fields stay |
| ClientApps.ClientApp.SyncArenaState | client/app.c:99-145 | the view's player, entity and spell tables are exactly those built from the records, and the current player and local direction follow the state |
| ClientApps.ClientApp.AddPlayers | client/app.c:106-120 | the player table becomes the rows for the player records |
| ClientApps.ClientApp.EntityOf | client/app.c:110-116 | the loop finds the first entity with the symbol, or -1 |
| ClientApps.ClientApp.AddEntities | client/app.c:123-127 | the entity table becomes the rows for the entity records |
| ClientApps.ClientApp.AddSpells | client/app.c:130-133 | the spell table becomes every spell record set in turn |
| ClientApps.ClientApp.FindCurrentPlayer | client/app.c:136-141 | the loop finds the first entity with the user's symbol, or -1 |
| ClientApps.ClientApp.OnVersion | client/app.c:191-206 | the state, menu, view and sends are exactly those the message functions give for a VERSION frame |
| ClientApps.ClientApp.OnStaticInfo | client/app.c:208-225 | the same for a STATIC_INFO frame |
| ClientApps.ClientApp.OnDynamicInfo | client/app.c:227-236 | the same for a DYNAMIC_INFO frame, the copying loop proved against the symbol cells |
| ClientApps.ClientApp.OnLoginStatus | client/app.c:238-266 | the same for a LOGIN_STATUS frame |
| ClientApps.ClientApp.OnUdpConnected | client/app.c:268-277 | the same for a UDP_CONNECTED frame |
| ClientApps.ClientApp.OnStartGame | client/app.c:279-284 | the same for a START_GAME frame |
| ClientApps.ClientApp.OnFinishGame | client/app.c:286-291 | the same for a FINISH_GAME frame |
| ClientApps.ClientApp.OnWaitArena | client/app.c:293-310 | the same for a WAIT_ARENA frame |
| ClientApps.ClientApp.OnGameStep | client/app.c:312-321 | the same for a GAME_STEP frame, and the view's tables are rebuilt from the new records |
| ClientApps.ClientApp.FindSurvivor | client/app.c:299-305 | the loop finds the first entity with health left, or NUL |
| ClientApps.ClientApp.HandlePacket | client/app.c:184-326 | the state, menu, view and sends follow the message functions; only a game step changes the view's tables |
| ClientApps.ClientApp.HandleNext | client/app.c:152-174 | one turn of the loop handles the leading frame and removes it, extending every fold |
| ClientApps.ClientApp.HandleFrame | client/app.c:164-165 | the frame handled extends every fold; the buffer is untouched |
| ClientApps.ClientApp.DropFrame | client/app.c:167-173 | the buffer loses exactly its leading frame and nothing else changes |
| ClientApps.ClientApp.ProcessTcpBuffer | client/app.c:151-175 | every whole frame of the buffer is handled, in order, with state, sends, menu and view those of the frames handled one after another, and only the incomplete tail stays |
| ClientApps.ClientApp.Disconnect | client/app.c:624-632 | the state is reset with both sockets closed, after a logout frame when the TCP socket was open |
| ClientApps.ClientApp.LogOut | client/app.c:445-448 | follows the logged-out effect |
| ClientApps.ClientApp.Connect | client/app.c:583-621 | follows the connection effect; returns 0 exactly when the version was sent |
| ClientApps.ClientApp.NoSocket | client/app.c:588-593 | without a socket the client is disconnected and the server shown not found |
| ClientApps.ClientApp.Establish | client/app.c:595-620 | follows the opened-socket effect; returns 0 exactly when the version was sent |
| ClientApps.ClientApp.GiveUpConnecting | client/app.c:596-601 | the socket is closed, the client is back in the menu and the server shown not found |
| ClientApps.ClientApp.SendMove | client/app.c:635-641 | with the socket open, one move frame the server decodes to the direction's byte; nothing otherwise |
| ClientApps.ClientApp.SendCast | client/app.c:644-650 | with the socket open, one cast frame the server decodes to the direction's byte and the selected spell; nothing otherwise |
| ClientApps.ClientApp.Destroy | client/app.c:653-656 | both sockets are closed and the rest of the state kept |
| ClientApps.ClientApp.MenuCommand | client/app.c:440-476 | follows the menu-command effect |
| ClientApps.ClientApp.EscapeCommand | client/app.c:442-457 | follows the Escape effect |
| ClientApps.ClientApp.EnterCommand | client/app.c:458-476 | follows the Enter effect with the menu's address and character |
| ClientApps.ClientApp.PlayingKey | client/app.c:488-513 | follows the playing-key effect |
| ClientApps.ClientApp.HandleInput | client/app.c:435-535 | follows the input effect, with the key the menu passes on; the view changes only by clearing the finished flag after the game |
| ClientApps.ClientApp.MenuKey | client/app.c:437-478 | the menu edits its fields first, then the key it passes on is the command |
| ClientApps.ClientApp.GameOverKey | client/app.c:515-524 | a confirmation logs out and clears the finished flag; any other key changes nothing |
| ClientApps.ClientApp.DisconnectedKey | client/app.c:526-533 | Escape stops the main loop; any other key returns to the menu, not connected |
| ClientApps.ClientApp.LoseConnection | client/app.c:559-567 | the client is disconnected, the socket left as it is, and the connection shown lost |
| ClientApps.ClientApp.ReceiveTcp | client/app.c:548-569 | the new state, menu, view info and sends are those of AfterRead on the old ones (ReadTcp, then Run, MenuRun and ViewRun over the whole frames, leaving the rest buffered; a lost read disconnects and marks the connection lost); the view's rows are rebuilt from the new state when a game step was read and kept otherwise; address, cursor and character stay |
| ClientApps.ClientApp.HandleNetwork | client/app.c:538-580 | the new state, menu, view info and sends are those of AfterNetwork: nothing once disconnected; otherwise the TCP phase (TcpPhase) and then, when the UDP socket is open and a datagram arrived, StateAfter, MenuAfter, ViewAfter and SendsFor on it; the view's rows come from the final state after a UDP game step, from the TCP phase's state after a TCP game step only, and are kept otherwise |
| ClientApps.Atoi | client/app.c:342 | a negative result needs a minus sign in the text; text starting with anything other than blank, digit or sign gives 0 |
| ClientApps.SyncedMenu | client/app.c:59-96 | the menu's connection status follows the client state; when not connected the server info is cleared and the login reset; the player count and 8 slots follow the roster; a positive wait replaces the countdown |
| ClientApps.SyncedInfo | client/app.c:136-145 | only the current player, its direction and the local direction change; the current player is the first entity with the player's symbol, and with none the previous values stay |
| ClientApps.AfterStaticInfo | client/app.c:208-225 | port, map size, winning points and maximum players are 16-bit values that re-encode to the payload's first eight bytes; nothing else changes except the state, which becomes the menu |
| ClientApps.AfterDynamicInfo | client/app.c:227-236 | the player count is the payload's first byte; only it and the player symbols change, the symbol table keeps its size |
| ClientApps.AfterLoginStatus | client/app.c:238-264 | the token becomes a 32-bit value; on OK the state becomes Waiting with the UDP socket; on any refusal only the token changes |
| ClientApps.AfterFinishGame | client/app.c:286-291 | the winner is the symbol of the payload's first byte and the state becomes game over; nothing else changes |
| ClientApps.AfterGameStep | client/app.c:312-321 | only entities, spells and player data change, each within its cap |
| ClientApps.AfterRead | client/app.c:548-568 | one TCP read folded through the frame handlers keeps the client well formed and the menu's 8 slots |
| ClientApps.AfterDatagram | client/app.c:571-578 | one datagram folded through the UDP handler keeps the client well formed and the menu's 8 slots |
| ClientApps.TcpPhase | client/app.c:548-569 | the TCP half of a network poll keeps the client well formed |
| ClientApps.AfterNetwork | client/app.c:538-580 | a whole network poll keeps the client well formed |
| ClientApps.ReadOutcomes | client/app.c:548-568 | a read only appends sends; after data, the complete frames of the grown buffer were handled in order and what stays buffered is incomplete; an empty read or a closed socket disconnects, marks the connection lost and sends nothing |

## Left out

- Sockets and all other POSIX I/O (net/socket.c: send, recv, select, accept, connect and their time-outs) are not part of this model. A socket is its descriptor, -1 when closed. What a read returns and what `socket_tcp_create` or `socket_connect` answer are parameters. The frames an operation sends are returned as values, in order.
- Rendering is not modelled: ui/renderer.c, ui/widgets.c, ui/terminal.c, `menu_render`, `arena_view_render` and the `render_*` helpers are ncurses output with no state of their own.
- The command-line parsing and signal handling in server/server_main.c and client/client.c are not modelled.
- Timing is not modelled: `server_run` and `client_app_run` pace their loops with `usleep` and `clock_gettime`. The model gives the steps of those loops (one tick of the game, one round of input and network handling), not the loops themselves. Wall-clock stamps (`get_time_ms`, an entity's damage time) are a parameter `now`.
- `arena_view_update`, `arena_view_update_interpolation` and `compute_spell_ray` only animate the picture with floating-point interpolation. `arena_view_damage_entity` only stamps a damage time for that animation. None of the four is modelled.
- The waiting-room animation of the menu (`waiting_room_init`, `waiting_room_update`, the `srand` in `menu_create`) uses `rand` and the clock and is not modelled. `Menus.Menu.Update` models only the focus rules.
- Floating-point timers (cooldowns, the spell move accumulator, the character's speed) are exact `real`s. IEEE rounding is not modelled.
- `rand` is a parameter: `rand(k)` is the k-th value the C library would return. `util_random` is not modelled.
- Log output (`printf`, `fprintf`, the debug print in `arena_add_spell`) is left out.
- Multi-byte payload fields are copied with `memcpy` in host order. They are modelled as little-endian, the order of the hosts the game runs on. A big-endian host is not modelled.
- Memory allocation failures (`malloc` returning NULL in `game_create`, `arena_create`, `server_create`) are not modelled: allocation always succeeds in Dafny.
- Vectors.Add: coordinates are unbounded integers, so a 32-bit overflow of `vec2_add` or `vec2_sub` is not modelled. Arena coordinates stay within a map of at most 50 cells.
- Vectors.LengthSq: the 32-bit overflow of the squares in `vec2_length_sq` is not modelled either.
- Games.Game.constructor: requires a map larger than 2 cells and a roster limit of at most 8. `game_create` takes any values, but server/server_main.c clamps the map size to 10..50 and the limit to 2..8 before creating the server.
- Servers.Server.HandleUdp: promises the room's validity rather than the whole server's. Its modifies clause names only the session array, so the game is left as it was.
- Servers.Server.constructor: the same two requirements, passed on to the game. The listening sockets that `server_create` binds are not modelled.
- Encoder.At: every decoder reads a byte past the end of a short payload as 0. The C decoders read whatever follows in memory instead: the next frame in the TCP buffer, or stale bytes of the client's `udp_buffer`. For example, `decode_static_info` (net/encoder.c:276-287) copies 8 bytes whatever the frame's data length, and a short STATIC_INFO frame then takes its last fields from the next frame's header. Those bytes depend on buffer history that the model does not keep, so the model uses a fixed 0.
- Servers.Server.ProcessBuffer: with Servers.Server.Consume, Servers.Server.Feed and Servers.Server.Receive, the loop states the framing only: the frames handled are the buffer's leading frames in order, and the incomplete rest is kept or a Logout empties the buffer. It does not state that `sent`, the room, the roster and the arena are the results of HandlePacket applied frame after frame; the effect of one frame is stated on Servers.Server.HandlePacket. Folding it through the loop would need a snapshot of the whole server per frame, which is beyond what the solver handles here.
- ClientApps.ParseServerAddr: the port is `atoi` into an `int` (client/app.c:342), which does not fit digits past 32 bits. Under glibc, `atoi` is `(int)strtol`, so "h:4294967297" gives port 1. The model reads the number exactly (4294967297), finds it out of range and uses 3042. Text up to 10 digits that stays within `int` parses as in C.
- Symbols (`char` in C) are modelled as the byte values 0..255. C's `char` is signed on the hosts the game runs on, so bytes 128..255 are negative there. Symbols are only compared with each other and copied, which gives the same results either way.
- `Encoder.DecodeGameStep` models `decode_game_step` as written. The client uses `Encoder.DecodeGameStepCapped` instead (see Findings).

## Findings

| source | as written | input that shows it | evidently intended | confidence | as-written member | corrected member |
|---|---|---|---|---|---|---|
| net/encoder.c:293-313 | `decode_game_step` stores as many records as the count bytes announce, as long as the bytes last. It keeps the announced counts even when fewer records were read. | A well-formed GAME_STEP frame that announces 17 entities and carries 17 entity records. The client then writes 17 records into its 16-entry `entities` array (client/state.h:57). | Each list is read only up to the capacity of the array it fills (MAX_ENTITIES, MAX_SPELLS, MAX_PLAYERS). Each count is the number of records actually read. | not executed | Encoder.GameStepOverrun | Encoder.DecodeGameStepCapped |
