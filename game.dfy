/**
 * The game (core/game.h, core/game.c): a roster of up to 8 players, the
 * current arena, the arena counter and the Waiting / Playing / Finished
 * state.  Each tick runs the arena, unbinds players whose entity died,
 * pays every survivor one point per death of the tick, and ends the round
 * when at most one player is left: the game is over once somebody has
 * the winning score, otherwise a fresh arena is built.
 *
 * The C library's rand() is a parameter: rand(k) is the k-th value it
 * returns, and every method that draws from it takes the index of the
 * next value and returns the index after the last one it used.
 */
module Games {
  import opened Vectors
  import opened GridMap
  import opened Entities
  import opened Spells
  import opened Players
  import opened Arenas

  const SpawnAttempts := 100
  const SpawnHealth := 100
  const SpawnEnergy := 100

  datatype GameState = Waiting | Playing | Finished

  // ---------------------------------------------------------------------
  // The roster as a sequence
  // ---------------------------------------------------------------------

  /** game_get_player_index: the first roster slot holding the symbol, or -1. */
  function IndexOfSymbol(roster: seq<Player>, symbol: char): (i: int)
    ensures -1 <= i < |roster|
    ensures i >= 0 ==> roster[i].symbol == symbol && forall k :: 0 <= k < i ==> roster[k].symbol != symbol
    ensures i < 0 <==> forall k :: 0 <= k < |roster| ==> roster[k].symbol != symbol
  {
    if roster == [] then -1
    else if roster[0].symbol == symbol then 0
    else
      var j := IndexOfSymbol(roster[1..], symbol);
      if j < 0 then -1 else j + 1
  }

  /** The first roster slot bound to the entity id, or -1. */
  function IndexOfEntity(roster: seq<Player>, entityId: int): (i: int)
    ensures -1 <= i < |roster|
    ensures i >= 0 ==> roster[i].entityId == entityId && forall k :: 0 <= k < i ==> roster[k].entityId != entityId
    ensures i < 0 <==> forall k :: 0 <= k < |roster| ==> roster[k].entityId != entityId
  {
    if roster == [] then -1
    else if roster[0].entityId == entityId then 0
    else
      var j := IndexOfEntity(roster[1..], entityId);
      if j < 0 then -1 else j + 1
  }

  /** The roster after game_add_player: unchanged when it is at its limit or holds the symbol, otherwise one connected newcomer at the end. */
  function Admitted(roster: seq<Player>, symbol: char, limit: int): (r: seq<Player>)
  {
    if |roster| >= limit || IndexOfSymbol(roster, symbol) >= 0 then roster
    else roster + [Players.Create(symbol).(connected := true)]
  }

  /** The roster after game_remove_player(game_get_player_index(symbol)): the symbol's first slot taken out, or no change when it is absent. */
  function Dropped(roster: seq<Player>, symbol: char): (r: seq<Player>)
  {
    var i := IndexOfSymbol(roster, symbol);
    if i < 0 then roster else roster[..i] + roster[i + 1..]
  }

  /** Removing a player the roster does not hold changes nothing, and removing one it does shortens it by one and keeps the others in order. */
  lemma {:induction false} DroppedShape(roster: seq<Player>, symbol: char)
    ensures IndexOfSymbol(roster, symbol) < 0 ==> Dropped(roster, symbol) == roster
    ensures IndexOfSymbol(roster, symbol) >= 0 ==>
      var i := IndexOfSymbol(roster, symbol);
      && |Dropped(roster, symbol)| == |roster| - 1
      && (forall k :: 0 <= k < i ==> Dropped(roster, symbol)[k] == roster[k])
      && (forall k :: i <= k < |roster| - 1 ==> Dropped(roster, symbol)[k] == roster[k + 1])
  {
    var i := IndexOfSymbol(roster, symbol);
    if i >= 0 {
      var d := roster[..i] + roster[i + 1..];
      assert Dropped(roster, symbol) == d;
      assert forall k :: 0 <= k < i ==> d[k] == roster[k];
      assert forall k :: i <= k < |roster| - 1 ==> d[k] == roster[k + 1];
    }
  }

  /** A newcomer who leaves again restores the roster: removing undoes a successful game_add_player. */
  lemma {:induction false} DroppedUndoesAdmitted(roster: seq<Player>, symbol: char, limit: int)
    requires |roster| < limit && IndexOfSymbol(roster, symbol) < 0
    ensures Dropped(Admitted(roster, symbol, limit), symbol) == roster
  {
    var r := roster + [Players.Create(symbol).(connected := true)];
    assert forall k :: 0 <= k < |roster| ==> r[k].symbol != symbol;
    assert r[|roster|].symbol == symbol;
    assert r[..|roster|] == roster;
  }

  /** A player counts as living when bound to an entity that the arena holds and that is alive. */
  predicate LivingPlayer(ents: seq<Entity>, p: Player)
  {
    p.entityId >= 0 && IndexOfId(ents, p.entityId) >= 0 && ents[IndexOfId(ents, p.entityId)].alive
  }

  /** game_count_living_players */
  function LivingCount(roster: seq<Player>, ents: seq<Entity>): (n: nat)
    ensures n <= |roster|
    ensures n == 0 <==> forall i :: 0 <= i < |roster| ==> !LivingPlayer(ents, roster[i])
  {
    if roster == [] then 0
    else
      var front := roster[..|roster| - 1];
      assert forall i :: 0 <= i < |front| ==> front[i] == roster[i];
      LivingCount(front, ents) + if LivingPlayer(ents, roster[|roster| - 1]) then 1 else 0
  }

  /** A player bound to an entity that the arena holds dead loses the binding. */
  function Unbound(ents: seq<Entity>, p: Player): (r: Player)
    ensures r.(entityId := p.entityId) == p
    ensures r.entityId == p.entityId || r.entityId == NoEntity
    ensures LivingPlayer(ents, r) <==> LivingPlayer(ents, p)
    ensures r.entityId >= 0 && IndexOfId(ents, r.entityId) >= 0 ==> ents[IndexOfId(ents, r.entityId)].alive
  {
    if p.entityId >= 0 && IndexOfId(ents, p.entityId) >= 0 && !ents[IndexOfId(ents, p.entityId)].alive
    then p.(entityId := NoEntity)
    else p
  }

  /** The unbinding loop of game_step over the whole roster. */
  function Unbind(roster: seq<Player>, ents: seq<Entity>): (r: seq<Player>)
    ensures |r| == |roster|
    ensures forall i :: 0 <= i < |roster| ==> r[i] == Unbound(ents, roster[i])
  {
    seq(|roster|, i requires 0 <= i < |roster| => Unbound(ents, roster[i]))
  }

  /** The scoring loop of game_step: each living player gains n points, nobody else changes. */
  function Award(roster: seq<Player>, ents: seq<Entity>, n: int): (r: seq<Player>)
    ensures |r| == |roster|
    ensures forall i :: 0 <= i < |roster| ==>
      r[i].points == roster[i].points + (if LivingPlayer(ents, roster[i]) then n else 0)
    ensures forall i :: 0 <= i < |roster| ==> r[i].(points := roster[i].points) == roster[i]
  {
    seq(|roster|, i requires 0 <= i < |roster| => if LivingPlayer(ents, roster[i]) then AddPoints(roster[i], n) else roster[i])
  }

  /**
   * The roster after the scoring half of game_step, given the entities
   * before and after arena_update: dead players unbound, then every
   * survivor paid the number of deaths.
   */
  function Scored(roster: seq<Player>, before: seq<Entity>, after: seq<Entity>): seq<Player>
  {
    var unbound := Unbind(roster, after);
    var deaths := LivingCount(roster, before) - LivingCount(unbound, after);
    if deaths > 0 then Award(unbound, after, deaths) else unbound
  }

  /** Unbinding changes nobody's living status, so the living count is the same. */
  lemma {:induction false} UnbindKeepsLiving(roster: seq<Player>, ents: seq<Entity>)
    ensures LivingCount(Unbind(roster, ents), ents) == LivingCount(roster, ents)
  {
    if roster != [] {
      var front := roster[..|roster| - 1];
      UnbindKeepsLiving(front, ents);
      assert Unbind(roster, ents)[..|roster| - 1] == Unbind(front, ents);
    }
  }

  /** Awarding points leaves every binding, hence the living count, alone. */
  lemma {:induction false} AwardKeepsLiving(roster: seq<Player>, ents: seq<Entity>, n: int)
    ensures LivingCount(Award(roster, ents, n), ents) == LivingCount(roster, ents)
  {
    if roster != [] {
      var front := roster[..|roster| - 1];
      AwardKeepsLiving(front, ents, n);
      assert Award(roster, ents, n)[..|roster| - 1] == Award(front, ents, n);
    }
  }

  /**
   * When entities keep their ids and can only die, no player becomes
   * living: the living count cannot grow.
   */
  lemma {:induction false} LivingNeverGrows(roster: seq<Player>, before: seq<Entity>, after: seq<Entity>)
    requires |after| == |before|
    requires forall k :: 0 <= k < |before| ==> after[k].id == before[k].id && (after[k].alive ==> before[k].alive)
    ensures LivingCount(roster, after) <= LivingCount(roster, before)
  {
    if roster != [] {
      var front := roster[..|roster| - 1];
      LivingNeverGrows(front, before, after);
      var p := roster[|roster| - 1];
      if LivingPlayer(after, p) {
        SameIdsSameIndex(before, after, p.entityId);
      }
    }
  }

  lemma {:induction false} SameIdsSameIndex(before: seq<Entity>, after: seq<Entity>, id: int)
    requires |after| == |before|
    requires forall k :: 0 <= k < |before| ==> after[k].id == before[k].id
    ensures IndexOfId(after, id) == IndexOfId(before, id)
  {
    if before != [] {
      SameIdsSameIndex(before[1..], after[1..], id);
    }
  }

  /**
   * The deaths of a tick are never negative, and every player still
   * living afterwards gains exactly that many points while keeping the
   * binding; nobody else's score moves.
   */
  lemma {:induction false} ScoringPaysSurvivors(roster: seq<Player>, before: seq<Entity>, after: seq<Entity>)
    requires |after| == |before|
    requires forall k :: 0 <= k < |before| ==> after[k].id == before[k].id && (after[k].alive ==> before[k].alive)
    ensures var deaths := LivingCount(roster, before) - LivingCount(Unbind(roster, after), after);
      && deaths >= 0
      && |Scored(roster, before, after)| == |roster|
      && forall i :: 0 <= i < |roster| ==>
           Scored(roster, before, after)[i].points
             == roster[i].points + (if LivingPlayer(after, roster[i]) then deaths else 0)
  {
    var unbound := Unbind(roster, after);
    var deaths := LivingCount(roster, before) - LivingCount(unbound, after);
    UnbindKeepsLiving(roster, after);
    LivingNeverGrows(roster, before, after);
    assert deaths >= 0;
    forall i | 0 <= i < |roster|
      ensures Scored(roster, before, after)[i].points == roster[i].points + (if LivingPlayer(after, roster[i]) then deaths else 0)
    {
      assert unbound[i] == Unbound(after, roster[i]);
    }
  }

  /** The roster after the first loop of game_handle_entity_death: the killer's player, if any, gains a point. */
  function Credited(roster: seq<Player>, killerEntityId: int): (r: seq<Player>)
    ensures |r| == |roster|
  {
    var k := IndexOfEntity(roster, killerEntityId);
    if k >= 0 then roster[k := AddPoints(roster[k], 1)] else roster
  }

  /** The roster after the second loop: the victim's player, if any, loses its binding. */
  function Released(roster: seq<Player>, entityId: int): (r: seq<Player>)
    ensures |r| == |roster|
  {
    var v := IndexOfEntity(roster, entityId);
    if v >= 0 then roster[v := roster[v].(entityId := NoEntity)] else roster
  }

  /**
   * A death is recorded exactly: the first player bound to the killer
   * gains one point and nobody else's score moves; the first player bound
   * to the dead entity loses the binding and every other binding stays.
   */
  lemma {:induction false} DeathBookkeeping(roster: seq<Player>, entityId: int, killerEntityId: int)
    ensures var r := Released(Credited(roster, killerEntityId), entityId);
      var killer := IndexOfEntity(roster, killerEntityId);
      var victim := IndexOfEntity(roster, entityId);
      && |r| == |roster|
      && (forall i :: 0 <= i < |roster| ==> r[i].points == roster[i].points + (if i == killer then 1 else 0))
      && (forall i :: 0 <= i < |roster| ==> r[i].entityId == if i == victim then NoEntity else roster[i].entityId)
      && (forall i :: 0 <= i < |roster| ==> r[i].symbol == roster[i].symbol && r[i].connected == roster[i].connected)
  {
    var c := Credited(roster, killerEntityId);
    assert forall i :: 0 <= i < |roster| ==> c[i].entityId == roster[i].entityId;
    SameBindingsSameIndex(roster, c, entityId);
  }

  /** Rosters with the same bindings find the same first player for an entity. */
  lemma {:induction false} SameBindingsSameIndex(a: seq<Player>, b: seq<Player>, entityId: int)
    requires |a| == |b| && forall i :: 0 <= i < |a| ==> a[i].entityId == b[i].entityId
    ensures IndexOfEntity(a, entityId) == IndexOfEntity(b, entityId)
    decreases |a|
  {
    if a != [] {
      SameBindingsSameIndex(a[1..], b[1..], entityId);
    }
  }

  /** game_has_winner over the roster: some player has reached the winning score; an empty roster has no winner. */
  predicate HasWinnerIn(roster: seq<Player>, winnerPoints: int)
    ensures HasWinnerIn(roster, winnerPoints) <==> exists p :: p in roster && p.points >= winnerPoints
    ensures roster == [] ==> !HasWinnerIn(roster, winnerPoints)
  {
    exists i :: 0 <= i < |roster| && roster[i].points >= winnerPoints
  }

  /** game_get_winner over the roster: the first player with the winning score, or NUL. */
  function WinnerOf(roster: seq<Player>, winnerPoints: int): (c: char)
    ensures c != '\0' ==> exists i :: 0 <= i < |roster| && roster[i].points >= winnerPoints && roster[i].symbol == c
    ensures !HasWinnerIn(roster, winnerPoints) ==> c == '\0'
  {
    if roster == [] then '\0'
    else if roster[0].points >= winnerPoints then roster[0].symbol
    else
      var c := WinnerOf(roster[1..], winnerPoints);
      assert c != '\0' ==> exists i :: 1 <= i < |roster| && roster[i].points >= winnerPoints && roster[i].symbol == c by {
        if c != '\0' {
          var i :| 0 <= i < |roster[1..]| && roster[1..][i].points >= winnerPoints && roster[1..][i].symbol == c;
          assert roster[i + 1] == roster[1..][i];
        }
      }
      c
  }

  /** With no NUL symbol on the roster, game_get_winner names someone exactly when game_has_winner holds. */
  lemma {:induction false} WinnerIffHasWinner(roster: seq<Player>, winnerPoints: int)
    requires forall i :: 0 <= i < |roster| ==> roster[i].symbol != '\0'
    ensures WinnerOf(roster, winnerPoints) != '\0' <==> HasWinnerIn(roster, winnerPoints)
  {
    if roster != [] && roster[0].points < winnerPoints {
      WinnerIffHasWinner(roster[1..], winnerPoints);
      if HasWinnerIn(roster, winnerPoints) {
        var i :| 0 <= i < |roster| && roster[i].points >= winnerPoints;
        assert roster[1..][i - 1] == roster[i];
      }
    }
  }

  // ---------------------------------------------------------------------
  // Spawning
  // ---------------------------------------------------------------------

  /** The fallback spawn point: the map centre. */
  function Centre(size: int): Vec2
  {
    Vec2(size / 2, size / 2)
  }

  /** A cell inside the border. */
  predicate Interior(size: int, p: Vec2)
  {
    1 <= p.x <= size - 2 && 1 <= p.y <= size - 2
  }

  /** Where get_random_floor_position may put an entity: the centre, or a free interior floor cell. */
  predicate SpawnSpot(size: int, cells: seq<Terrain>, occupied: seq<Vec2>, p: Vec2)
    requires |cells| == size * size
  {
    p == Centre(size) || (Interior(size, p) && TerrainAt(size, cells, p) == Floor && p !in occupied)
  }

  /** The number of connected players on the roster. */
  function ConnectedCount(roster: seq<Player>): (n: nat)
    ensures n <= |roster|
  {
    if roster == [] then 0
    else ConnectedCount(roster[..|roster| - 1]) + if roster[|roster| - 1].connected then 1 else 0
  }

  /** The symbols of the connected players, in roster order. */
  function ConnectedSymbols(roster: seq<Player>): (r: seq<char>)
    ensures |r| == ConnectedCount(roster)
  {
    if roster == [] then []
    else
      var front := ConnectedSymbols(roster[..|roster| - 1]);
      if roster[|roster| - 1].connected then front + [roster[|roster| - 1].symbol] else front
  }

  /** The roster after game_create_arena: the k-th connected player is bound to entity id k + 1. */
  function Spawned(roster: seq<Player>): (r: seq<Player>)
    ensures |r| == |roster|
  {
    if roster == [] then []
    else
      var front := roster[..|roster| - 1];
      var p := roster[|roster| - 1];
      Spawned(front) + [if p.connected then p.(entityId := ConnectedCount(front) + 1) else p]
  }

  /**
   * The entities game_create_arena adds, one per connected player in
   * roster order: ids 1, 2, ..., the player's symbol, 100 health and
   * energy, each at a spawn spot that avoids the spots chosen before it.
   */
  ghost predicate Populated(ents: seq<Entity>, symbols: seq<char>, size: int, cells: seq<Terrain>)
    requires |cells| == size * size
  {
    && |ents| == |symbols|
    && forall k :: 0 <= k < |ents| ==>
         && ents[k] == Entities.Create(k + 1, symbols[k], ents[k].position, SpawnHealth, SpawnEnergy)
         && SpawnSpot(size, cells, Positions(ents[..k]), ents[k].position)
  }

  /** The positions of a list of entities. */
  function Positions(ents: seq<Entity>): (r: seq<Vec2>)
    ensures |r| == |ents| && forall k :: 0 <= k < |ents| ==> r[k] == ents[k].position
  {
    seq(|ents|, k requires 0 <= k < |ents| => ents[k].position)
  }

  /** Spawned over a longer roster agrees with Spawned over its prefix. */
  lemma {:induction false} SpawnedPrefix(roster: seq<Player>, n: int)
    requires 0 <= n <= |roster|
    ensures Spawned(roster)[..n] == Spawned(roster[..n])
    ensures ConnectedCount(roster[..n]) <= ConnectedCount(roster)
    ensures ConnectedSymbols(roster[..n]) == ConnectedSymbols(roster)[..ConnectedCount(roster[..n])]
    decreases |roster|
  {
    if n < |roster| {
      var front := roster[..|roster| - 1];
      assert front[..n] == roster[..n];
      SpawnedPrefix(front, n);
      assert ConnectedSymbols(front) == ConnectedSymbols(roster)[..ConnectedCount(front)];
    } else {
      assert roster[..n] == roster;
    }
  }

  /**
   * After game_create_arena every connected player is bound to a live
   * entity of the new arena that carries the player's own symbol.
   */
  lemma {:induction false} SpawnBindsOwnEntity(roster: seq<Player>, ents: seq<Entity>, size: int, cells: seq<Terrain>, i: int)
    requires |cells| == size * size && Populated(ents, ConnectedSymbols(roster), size, cells)
    requires 0 <= i < |roster| && roster[i].connected
    ensures LivingPlayer(ents, Spawned(roster)[i])
    ensures ents[IndexOfId(ents, Spawned(roster)[i].entityId)].symbol == roster[i].symbol
  {
    var k := ConnectedCount(roster[..i]);
    SpawnedPrefix(roster, i + 1);
    assert roster[..i + 1][..i] == roster[..i];
    assert Spawned(roster)[i] == Spawned(roster[..i + 1])[i];
    assert Spawned(roster)[i].entityId == k + 1;
    assert ConnectedSymbols(roster[..i + 1]) == ConnectedSymbols(roster[..i]) + [roster[i].symbol];
    assert k < |ents| && ents[k].symbol == roster[i].symbol;
    IdsAreSlots(ents, ConnectedSymbols(roster), size, cells, k);
  }

  /** In a populated list the entity with id k + 1 sits in slot k. */
  lemma {:induction false} IdsAreSlots(ents: seq<Entity>, symbols: seq<char>, size: int, cells: seq<Terrain>, k: int)
    requires |cells| == size * size && Populated(ents, symbols, size, cells)
    requires 0 <= k < |ents|
    ensures IndexOfId(ents, k + 1) == k
  {
    assert ents[k].id == k + 1;
    var j := IndexOfId(ents, k + 1);
    assert ents[j].id == j + 1;
  }

  /**
   * An arena during game_create_arena: fresh walls, no spells, one
   * entity per symbol so far, each at a spawn spot, with ids from 1
   * and the occupied list their positions.
   */
  ghost predicate ArenaSpawned(a: Arena, size: int, symbols: seq<char>, occupied: seq<Vec2>)
    reads a, a.grid, a.grid.ground, a.entities, a.spells
  {
    && size > 2 && a.Valid() && a.grid.size == size && Walled(size, a.Cells())
    && a.SpellList() == [] && a.nextEntityId == a.entityCount + 1
    && occupied == Positions(a.EntityList())
    && Populated(a.EntityList(), symbols, size, a.Cells())
  }

  /** The arena that game_create_arena starts from: walled, with no entities and no spells. */
  method NewArena(size: int) returns (a: Arena)
    requires size > 2
    ensures fresh(a) && fresh(a.grid) && fresh(a.grid.ground) && fresh(a.entities) && fresh(a.spells)
    ensures ArenaSpawned(a, size, [], [])
  {
    a := new Arena(size);
  }

  /** The arena half of one pass of game_create_arena's loop: a spawn spot is drawn and an entity added there. */
  method SpawnEntity(a: Arena, ghost size: int, ghost symbols: seq<char>, symbol: char, occupied: seq<Vec2>, rand: nat -> nat, cursor: nat)
    returns (id: int, occupied': seq<Vec2>, next: nat)
    requires ArenaSpawned(a, size, symbols, occupied) && |symbols| < MaxPlayers
    modifies a, a.entities
    ensures ArenaSpawned(a, size, symbols + [symbol], occupied') && id == |symbols| + 1 && next >= cursor
  {
    ghost var cells := a.Cells();
    ghost var ents := a.EntityList();
    var spawn;
    spawn, next := SpawnPosition(a.grid, occupied, rand, cursor);
    occupied' := occupied + [spawn];
    id := a.AddEntity(symbol, spawn, SpawnHealth, SpawnEnergy);
    PopulatedSnoc(ents, symbols, size, cells, symbol, spawn);
  }

  /**
   * get_random_floor_position: up to 100 attempts, each drawing x and y
   * in the interior from rand() and accepting a floor cell no earlier
   * spawn took; when all fail, the map centre (which may be taken).
   */
  method SpawnPosition(grid: Map, occupied: seq<Vec2>, rand: nat -> nat, cursor: nat) returns (pos: Vec2, next: nat)
    requires grid.Valid() && grid.size > 2
    ensures next >= cursor
    ensures SpawnSpot(grid.size, grid.ground[..], occupied, pos)
  {
    next := cursor;
    var attempts := SpawnAttempts;
    while attempts > 0
      invariant next >= cursor
    {
      attempts := attempts - 1;
      var x := 1 + rand(next) % (grid.size - 2);
      var y := 1 + rand(next + 1) % (grid.size - 2);
      next := next + 2;
      var candidate := Vectors.Create(x, y);
      if grid.GetTerrain(candidate) != Floor {
        continue;
      }
      var isOccupied := false;
      var i := 0;
      while i < |occupied|
        invariant 0 <= i <= |occupied|
        invariant !isOccupied
        invariant forall k :: 0 <= k < i ==> occupied[k] != candidate
      {
        if EqualsVec(candidate, occupied[i]) {
          isOccupied := true;
          break;
        }
        i := i + 1;
      }
      if !isOccupied {
        return candidate, next;
      }
    }
    pos := Vectors.Create(grid.size / 2, grid.size / 2);
  }

  // ---------------------------------------------------------------------
  // The Game record
  // ---------------------------------------------------------------------

  /**
   * The Game struct.  The map size, winning score and roster limit are
   * fixed when the game is created; the roster is the first playerCount
   * slots of the players array.
   */
  class Game {
    const mapSize: int
    const winnerPoints: int
    const maxPlayers: int
    const players: array<Player>
    var arenaNumber: int
    var state: GameState
    var arena: Arena?
    var playerCount: int

    /** The objects of the current arena. */
    ghost function ArenaRepr(): set<object>
      reads this, arena
    {
      if arena == null then {} else {arena, arena.grid, arena.entities, arena.spells}
    }

    /** A roster of at most 8 within its array, and a valid arena of the game's map size when there is one. */
    ghost predicate Valid()
      reads this, ArenaRepr()
    {
      && players.Length == MaxPlayers
      && 0 <= playerCount <= MaxPlayers && maxPlayers <= MaxPlayers
      && mapSize > 2
      && (arena != null ==> arena.Valid() && arena.grid.size == mapSize)
    }

    /** What the scoring loops rely on: a roster within its array and an arena whose counts fit its arrays. */
    ghost predicate Scoring()
      reads this, arena, if arena == null then {} else {arena.grid}
    {
      0 <= playerCount <= players.Length && arena != null && arena.Shape()
    }

    /** The players in use. */
    ghost function Roster(): seq<Player>
      reads this, players
      requires 0 <= playerCount <= players.Length
    {
      players[..playerCount]
    }

    /**
     * game_create: Waiting, no arena, arena number 0 and an empty roster
     * whose slots hold player_create('\0').  The server clamps the map size
     * to 10..50 and the roster limit to 2..8; the model asks for a map
     * with an interior and a limit within the roster array.
     */
    constructor (mapSize: int, winnerPoints: int, maxPlayers: int)
      requires mapSize > 2 && maxPlayers <= MaxPlayers
      ensures Valid() && fresh(players)
      ensures this.mapSize == mapSize && this.winnerPoints == winnerPoints && this.maxPlayers == maxPlayers
      ensures state == Waiting && arena == null && arenaNumber == 0 && Roster() == []
      ensures forall i :: 0 <= i < MaxPlayers ==> players[i] == Players.Create('\0')
    {
      this.mapSize := mapSize;
      this.winnerPoints := winnerPoints;
      this.maxPlayers := maxPlayers;
      arenaNumber := 0;
      state := Waiting;
      arena := null;
      playerCount := 0;
      var slots := new Player[MaxPlayers];
      var i := 0;
      while i < MaxPlayers
        invariant 0 <= i <= MaxPlayers
        invariant forall k :: 0 <= k < i ==> slots[k] == Players.Create('\0')
      {
        slots[i] := Players.Create('\0');
        i := i + 1;
      }
      players := slots;
    }

    /**
     * game_add_player: -1 and no change when the roster is at its limit or
     * the symbol is already on it; otherwise a connected player with no
     * points and no entity is appended and its index returned.
     */
    method AddPlayer(symbol: char) returns (index: int)
      requires Valid()
      modifies this, players
      ensures Valid()
      ensures arena == old(arena) && state == old(state) && arenaNumber == old(arenaNumber)
      ensures old(playerCount) >= maxPlayers || IndexOfSymbol(old(Roster()), symbol) >= 0 ==>
        index == -1 && Roster() == old(Roster())
      ensures old(playerCount) < maxPlayers && IndexOfSymbol(old(Roster()), symbol) < 0 ==>
        index == old(playerCount) && Roster() == old(Roster()) + [Players.Create(symbol).(connected := true)]
      ensures Roster() == Admitted(old(Roster()), symbol, maxPlayers)
    {
      if playerCount >= maxPlayers {
        return -1;
      }
      var found := GetPlayerIndex(symbol);
      if found >= 0 {
        return -1;
      }
      index := playerCount;
      players[index] := Players.Create(symbol).(connected := true);
      playerCount := playerCount + 1;
    }

    /**
     * game_remove_player: an index outside the roster changes nothing;
     * otherwise the later players move down one slot in order (the old
     * last slot keeps its copy) and the roster shrinks by one.
     */
    method RemovePlayer(index: int)
      requires Valid()
      modifies this, players
      ensures Valid()
      ensures arena == old(arena) && state == old(state) && arenaNumber == old(arenaNumber)
      ensures !(0 <= index < old(playerCount)) ==> playerCount == old(playerCount) && players[..] == old(players[..])
      ensures 0 <= index < old(playerCount) ==>
        && playerCount == old(playerCount) - 1
        && players[..] == old(players[..index]) + old(players[index + 1..playerCount]) + old(players[playerCount - 1..])
        && Roster() == old(Roster()[..index] + Roster()[index + 1..])
    {
      if index < 0 || index >= playerCount {
        return;
      }
      ShiftDown(index);
      playerCount := playerCount - 1;
    }

    /** The loop of game_remove_player: each later slot moves down one, the last slot keeps its copy. */
    method ShiftDown(index: int)
      requires 0 <= index < playerCount <= players.Length
      modifies players
      ensures players[..] == old(players[..index]) + old(players[index + 1..playerCount]) + old(players[playerCount - 1..])
    {
      ghost var before := players[..];
      var i := index;
      while i < playerCount - 1
        invariant index <= i <= playerCount - 1
        invariant forall k :: 0 <= k < index ==> players[k] == before[k]
        invariant forall k :: index <= k < i ==> players[k] == before[k + 1]
        invariant forall k :: i <= k < players.Length ==> players[k] == before[k]
      {
        players[i] := players[i + 1];
        i := i + 1;
      }
      assert players[..] == before[..index] + before[index + 1..playerCount] + before[playerCount - 1..];
    }

    /** game_get_player_index; game_get_player_by_symbol is the same scan returning the slot's address. */
    method GetPlayerIndex(symbol: char) returns (index: int)
      requires Valid()
      ensures index == IndexOfSymbol(Roster(), symbol)
    {
      index := 0;
      while index < playerCount
        invariant 0 <= index <= playerCount
        invariant forall k :: 0 <= k < index ==> players[k].symbol != symbol
      {
        if players[index].symbol == symbol {
          return;
        }
        index := index + 1;
      }
      index := -1;
    }
  
    /**
     * game_create_arena: the old arena is destroyed and replaced by a
     * fresh one of the game's map size, the arena number goes up, and
     * every connected player in roster order gets a new entity (100
     * health, 100 energy) at a spawn spot and is bound to it.
     */
    method CreateArena(rand: nat -> nat, cursor: nat) returns (next: nat)
      requires Valid()
      modifies this, players, ArenaRepr()
      ensures Valid() && next >= cursor
      ensures state == old(state) && playerCount == old(playerCount) && arenaNumber == old(arenaNumber) + 1
      ensures arena != null && fresh(arena) && fresh(arena.grid) && fresh(arena.entities) && fresh(arena.spells)
      ensures Walled(mapSize, arena.Cells()) && arena.SpellList() == []
      ensures Roster() == Spawned(old(Roster()))
      ensures Populated(arena.EntityList(), ConnectedSymbols(old(Roster())), mapSize, arena.Cells())
    {
      if arena != null {
        arena.Destroy();
      }
      var created;
      created, next := BuildArena(rand, cursor);
      arena := created;
      arenaNumber := arenaNumber + 1;
    }

    /** The building half of game_create_arena: a fresh walled arena, then one entity per connected player in roster order. */
    method BuildArena(rand: nat -> nat, cursor: nat) returns (a: Arena, next: nat)
      requires 0 <= playerCount <= players.Length == MaxPlayers && mapSize > 2
      modifies players
      ensures fresh(a) && fresh(a.grid) && fresh(a.entities) && fresh(a.spells)
      ensures next >= cursor
      ensures a.Valid() && a.grid.size == mapSize && Walled(mapSize, a.Cells()) && a.SpellList() == []
      ensures Roster() == Spawned(old(Roster()))
      ensures Populated(a.EntityList(), ConnectedSymbols(old(Roster())), mapSize, a.Cells())
    {
      a := NewArena(mapSize);
      assert Roster()[..0] == [] && Roster()[0..] == Roster();
      next := SpawnEach(a, rand, cursor);
    }

    /** The loop of game_create_arena over the roster. */
    method SpawnEach(a: Arena, rand: nat -> nat, cursor: nat) returns (next: nat)
      requires 0 <= playerCount <= players.Length && RosterSpawned(Roster(), 0) && ArenaSpawned(a, mapSize, [], [])
      modifies players, a, a.entities
      ensures next >= cursor
      ensures a.Valid() && a.grid.size == mapSize && Walled(mapSize, a.Cells()) && a.SpellList() == []
      ensures Roster() == Spawned(old(Roster()))
      ensures Populated(a.EntityList(), ConnectedSymbols(old(Roster())), mapSize, a.Cells())
    {
      ghost var roster := Roster();
      var occupied: seq<Vec2> := [];
      next := cursor;
      var i := 0;
      while i < playerCount
        invariant RosterSpawned(roster, i)
        invariant ArenaSpawned(a, mapSize, ConnectedSymbols(roster[..i]), occupied)
        invariant next >= cursor
      {
        occupied, next := SpawnOne(a, roster, i, occupied, rand, next);
        i := i + 1;
      }
      assert roster[..playerCount] == roster;
    }

    /** One pass of game_create_arena's loop: a connected player gets an entity at a spawn spot and is bound to it. */
    method SpawnOne(a: Arena, ghost roster: seq<Player>, i: int, occupied: seq<Vec2>, rand: nat -> nat, cursor: nat)
      returns (occupied': seq<Vec2>, next: nat)
      requires RosterSpawned(roster, i) && i < playerCount
      requires ArenaSpawned(a, mapSize, ConnectedSymbols(roster[..i]), occupied)
      modifies players, a, a.entities
      ensures RosterSpawned(roster, i + 1)
      ensures ArenaSpawned(a, mapSize, ConnectedSymbols(roster[..i + 1]), occupied') && next >= cursor
    {
      assert roster[..i + 1][..i] == roster[..i];
      var p := players[i];
      assert p == roster[i];
      ghost var syms := ConnectedSymbols(roster[..i]);
      assert ConnectedSymbols(roster[..i + 1]) == if p.connected then syms + [p.symbol] else syms;
      occupied', next := occupied, cursor;
      var id := NoEntity;
      if p.connected {
        id, occupied', next := SpawnEntity(a, mapSize, syms, p.symbol, occupied, rand, cursor);
      }
      BindSpawned(roster, i, id);
    }

    /** The roster half of game_create_arena's loop after the first i slots: those are bound as Spawned says. */
    ghost predicate RosterSpawned(roster: seq<Player>, i: int)
      reads this, players
    {
      && 0 <= i <= playerCount <= players.Length == MaxPlayers && |roster| == playerCount
      && players[..playerCount] == Spawned(roster[..i]) + roster[i..]
    }

    /** The roster half of one pass of game_create_arena's loop: a connected player is bound to the new entity's id. */
    method BindSpawned(ghost roster: seq<Player>, i: int, id: int)
      requires RosterSpawned(roster, i) && i < playerCount
      requires players[i].connected ==> id == ConnectedCount(roster[..i]) + 1
      modifies players
      ensures RosterSpawned(roster, i + 1)
    {
      assert roster[..i + 1][..i] == roster[..i];
      assert players[i] == roster[i];
      if players[i].connected {
        players[i] := players[i].(entityId := id);
      }
      assert players[..playerCount] == Spawned(roster[..i + 1]) + roster[i + 1..];
    }

    /** Whether a player is bound to a living entity of the arena, as the loops of game_step test it. */
    method IsLiving(p: Player) returns (living: bool)
      requires Scoring()
      ensures living == LivingPlayer(arena.EntityList(), p)
    {
      living := false;
      if p.entityId >= 0 {
        var k := arena.GetEntity(p.entityId);
        living := k >= 0 && arena.entities[k].alive;
      }
    }

    /** Whether a player is bound to an entity that the arena holds dead. */
    method IsBoundToDead(p: Player) returns (dead: bool)
      requires Scoring()
      ensures dead <==> Unbound(arena.EntityList(), p) != p
    {
      dead := false;
      if p.entityId >= 0 {
        var k := arena.GetEntity(p.entityId);
        dead := k >= 0 && !arena.entities[k].alive;
      }
    }

    /** game_count_living_players */
    method CountLivingPlayers() returns (count: int)
      requires Scoring()
      ensures count == LivingCount(Roster(), arena.EntityList())
    {
      ghost var ents := arena.EntityList();
      count := 0;
      var i := 0;
      while i < playerCount
        invariant 0 <= i <= playerCount
        invariant count == LivingCount(players[..i], ents)
      {
        assert players[..i + 1][..i] == players[..i];
        var living := IsLiving(players[i]);
        if living {
          count := count + 1;
        }
        i := i + 1;
      }
      assert players[..playerCount] == Roster();
    }

    /** The unbinding loop of game_step. */
    method UnbindDead()
      requires Scoring()
      modifies players
      ensures Roster() == Unbind(old(Roster()), arena.EntityList())
    {
      ghost var roster := Roster();
      ghost var ents := arena.EntityList();
      var i := 0;
      while i < playerCount
        invariant 0 <= i <= playerCount
        invariant forall k :: 0 <= k < i ==> players[k] == Unbound(ents, roster[k])
        invariant forall k :: i <= k < playerCount ==> players[k] == roster[k]
      {
        var dead := IsBoundToDead(players[i]);
        if dead {
          players[i] := players[i].(entityId := NoEntity);
        }
        i := i + 1;
      }
    }

    /** The scoring loop of game_step: each living player gains n points. */
    method AwardSurvivors(n: int)
      requires Scoring()
      modifies players
      ensures Roster() == Award(old(Roster()), arena.EntityList(), n)
    {
      ghost var roster := Roster();
      ghost var ents := arena.EntityList();
      var i := 0;
      while i < playerCount
        invariant 0 <= i <= playerCount
        invariant forall k :: 0 <= k < i ==> players[k] == Award(roster, ents, n)[k]
        invariant forall k :: i <= k < playerCount ==> players[k] == roster[k]
      {
        var living := IsLiving(players[i]);
        if living {
          players[i] := AddPoints(players[i], n);
        }
        i := i + 1;
      }
    }

    /**
     * The first half of game_step on a running arena: count the living
     * players, run arena_update, unbind the dead, count again, and pay
     * each survivor the difference when it is positive.  Returns the
     * second count.
     */
    method Tick(dt: real) returns (livingAfter: int)
      requires Valid() && arena != null
      modifies players, arena, arena.entities, arena.spells
      ensures Valid()
      ensures var after := TickedEntities(mapSize, arena.Cells(), old(arena.EntityList()), old(arena.SpellList()), dt);
        && arena.EntityList() == after
        && arena.SpellList() == TickedSpells(mapSize, arena.Cells(), old(arena.EntityList()), old(arena.SpellList()), dt)
        && Roster() == Scored(old(Roster()), old(arena.EntityList()), after)
        && livingAfter == LivingCount(Unbind(old(Roster()), after), after)
      ensures arena.Cells() == old(arena.Cells())
    {
      ghost var before := arena.EntityList();
      var livingBefore := CountLivingPlayers();
      arena.Update(dt);
      assert Valid();
      livingAfter := Score(before, livingBefore);
      assert arena.Valid();
    }

    /**
     * The scoring half of game_step, after arena_update: unbind the dead,
     * count the living again, and pay each survivor the difference from
     * the count taken before the update when it is positive.
     */
    method Score(ghost before: seq<Entity>, livingBefore: int) returns (livingAfter: int)
      requires Valid() && arena != null && livingBefore == LivingCount(Roster(), before)
      modifies players
      ensures Roster() == Scored(old(Roster()), before, arena.EntityList())
      ensures livingAfter == LivingCount(Unbind(old(Roster()), arena.EntityList()), arena.EntityList())
    {
      UnbindDead();
      livingAfter := CountLivingPlayers();
      var deleted := livingBefore - livingAfter;
      if deleted > 0 {
        AwardSurvivors(deleted);
      }
    }

    /**
     * game_step: nothing unless Playing with an arena.  Otherwise one tick
     * is run and scored; when more than one player is on the roster and
     * at most one is still living, the game is Finished if somebody has
     * the winning score, and otherwise a new arena is built.
     */
    method Step(dt: real, rand: nat -> nat, cursor: nat) returns (next: nat)
      requires Valid()
      modifies this, players, ArenaRepr()
      ensures Valid() && next >= cursor && playerCount == old(playerCount)
      ensures arena == old(arena) || fresh(ArenaRepr())
      ensures old(state) != Playing || old(arena) == null ==>
        && state == old(state) && arena == old(arena) && arenaNumber == old(arenaNumber)
        && Roster() == old(Roster()) && next == cursor
        && (arena != null ==> arena.EntityList() == old(arena.EntityList()) && arena.SpellList() == old(arena.SpellList()))
      ensures old(state) == Playing && old(arena) != null ==>
        var after := TickedEntities(mapSize, old(arena.Cells()), old(arena.EntityList()), old(arena.SpellList()), dt);
        var scored := Scored(old(Roster()), old(arena.EntityList()), after);
        var over := LivingCount(Unbind(old(Roster()), after), after) <= 1 && old(playerCount) > 1;
        var spells := TickedSpells(mapSize, old(arena.Cells()), old(arena.EntityList()), old(arena.SpellList()), dt);
        && (!over ==> state == Playing && arena == old(arena) && arenaNumber == old(arenaNumber)
                      && Roster() == scored && arena.EntityList() == after
                      && arena.SpellList() == spells && arena.Cells() == old(arena.Cells()))
        && (over && HasWinnerIn(scored, winnerPoints) ==>
              state == Finished && arena == old(arena) && arenaNumber == old(arenaNumber)
              && Roster() == scored && arena.EntityList() == after
              && arena.SpellList() == spells && arena.Cells() == old(arena.Cells()))
        && (over && !HasWinnerIn(scored, winnerPoints) ==>
              && state == Playing && arenaNumber == old(arenaNumber) + 1 && arena != null && fresh(arena) && fresh(arena.grid) && fresh(arena.entities) && fresh(arena.spells)
              && Walled(mapSize, arena.Cells()) && arena.SpellList() == []
              && Roster() == Spawned(scored)
              && Populated(arena.EntityList(), ConnectedSymbols(scored), mapSize, arena.Cells()))
    {
      next := cursor;
      if state != Playing || arena == null {
        return;
      }
      var livingAfter := Tick(dt);
      next := EndRound(livingAfter, rand, cursor);
    }

    /**
     * The second half of game_step: with more than one player on the
     * roster and at most livingAfter <= 1 of them living, the game is
     * Finished when somebody has the winning score and a new arena is
     * built otherwise; in every other case nothing changes.
     */
    method EndRound(livingAfter: int, rand: nat -> nat, cursor: nat) returns (next: nat)
      requires Valid() && arena != null
      modifies this, players, ArenaRepr()
      ensures Valid() && next >= cursor && playerCount == old(playerCount)
      ensures arena == old(arena) || fresh(ArenaRepr())
      ensures !(livingAfter <= 1 && playerCount > 1) || HasWinnerIn(old(Roster()), winnerPoints) ==>
        && arena == old(arena) && arenaNumber == old(arenaNumber) && Roster() == old(Roster())
        && arena.EntityList() == old(arena.EntityList()) && arena.SpellList() == old(arena.SpellList())
        && arena.Cells() == old(arena.Cells())
      ensures !(livingAfter <= 1 && playerCount > 1) ==> state == old(state)
      ensures livingAfter <= 1 && playerCount > 1 && HasWinnerIn(old(Roster()), winnerPoints) ==> state == Finished
      ensures livingAfter <= 1 && playerCount > 1 && !HasWinnerIn(old(Roster()), winnerPoints) ==>
        && state == old(state) && arenaNumber == old(arenaNumber) + 1 && arena != null && fresh(arena) && fresh(arena.grid) && fresh(arena.entities) && fresh(arena.spells)
        && Walled(mapSize, arena.Cells()) && arena.SpellList() == []
        && Roster() == Spawned(old(Roster()))
        && Populated(arena.EntityList(), ConnectedSymbols(old(Roster())), mapSize, arena.Cells())
    {
      next := cursor;
      if livingAfter <= 1 && playerCount > 1 {
        var won := HasWinner();
        if won {
          state := Finished;
        } else {
          next := CreateArena(rand, cursor);
        }
      }
    }

    /** game_has_winner */
    method HasWinner() returns (won: bool)
      requires Valid()
      ensures won <==> HasWinnerIn(Roster(), winnerPoints)
    {
      var i := 0;
      while i < playerCount
        invariant 0 <= i <= playerCount
        invariant forall k :: 0 <= k < i ==> players[k].points < winnerPoints
      {
        if players[i].points >= winnerPoints {
          assert Roster()[i] == players[i];
          return true;
        }
        i := i + 1;
      }
      return false;
    }

    /** game_get_winner: the first player on the roster with the winning score, or NUL. */
    method GetWinner() returns (winner: char)
      requires Valid()
      ensures winner == WinnerOf(Roster(), winnerPoints)
    {
      var i := 0;
      while i < playerCount
        invariant 0 <= i <= playerCount
        invariant WinnerOf(Roster(), winnerPoints) == WinnerOf(Roster()[i..], winnerPoints)
      {
        assert Roster()[i..][1..] == Roster()[i + 1..];
        if players[i].points >= winnerPoints {
          return players[i].symbol;
        }
        i := i + 1;
      }
      return '\0';
    }

    /** game_is_ready: at least two players and no more than the limit, so never with a limit below two. */
    predicate IsReady()
      reads this
    {
      playerCount >= 2 && playerCount <= maxPlayers
    }

    /** game_start: nothing unless ready; otherwise Playing on a freshly built arena. */
    method Start(rand: nat -> nat, cursor: nat) returns (next: nat)
      requires Valid()
      modifies this, players, ArenaRepr()
      ensures Valid() && next >= cursor && playerCount == old(playerCount)
      ensures !old(IsReady()) ==>
        state == old(state) && arena == old(arena) && arenaNumber == old(arenaNumber) && Roster() == old(Roster()) && next == cursor
      ensures old(IsReady()) ==>
        && state == Playing && arenaNumber == old(arenaNumber) + 1 && arena != null && fresh(arena) && fresh(arena.grid) && fresh(arena.entities) && fresh(arena.spells)
        && Roster() == Spawned(old(Roster()))
        && Populated(arena.EntityList(), ConnectedSymbols(old(Roster())), mapSize, arena.Cells())
    {
      next := cursor;
      if !IsReady() {
        return;
      }
      state := Playing;
      next := CreateArena(rand, cursor);
    }

    /**
     * game_handle_entity_death: the first player bound to the killer's
     * entity gains a point, then the first player bound to the dead
     * entity is unbound.
     */
    method HandleEntityDeath(entityId: int, killerEntityId: int)
      requires Valid()
      modifies players
      ensures Roster() == Released(Credited(old(Roster()), killerEntityId), entityId)
    {
      CreditKiller(killerEntityId);
      ReleaseVictim(entityId);
    }

    /** The first loop of game_handle_entity_death. */
    method CreditKiller(killerEntityId: int)
      requires Valid()
      modifies players
      ensures Roster() == Credited(old(Roster()), killerEntityId)
    {
      ghost var roster := Roster();
      var i := 0;
      while i < playerCount
        invariant 0 <= i <= playerCount && Roster() == roster
        invariant forall k :: 0 <= k < i ==> roster[k].entityId != killerEntityId
      {
        if players[i].entityId == killerEntityId {
          assert IndexOfEntity(roster, killerEntityId) == i;
          players[i] := AddPoints(players[i], 1);
          assert Roster() == roster[i := AddPoints(roster[i], 1)];
          return;
        }
        i := i + 1;
      }
    }

    /** The second loop of game_handle_entity_death. */
    method ReleaseVictim(entityId: int)
      requires Valid()
      modifies players
      ensures Roster() == Released(old(Roster()), entityId)
    {
      ghost var roster := Roster();
      var i := 0;
      while i < playerCount
        invariant 0 <= i <= playerCount && Roster() == roster
        invariant forall k :: 0 <= k < i ==> roster[k].entityId != entityId
      {
        if players[i].entityId == entityId {
          assert IndexOfEntity(roster, entityId) == i;
          players[i] := players[i].(entityId := NoEntity);
          assert Roster() == roster[i := roster[i].(entityId := NoEntity)];
          return;
        }
        i := i + 1;
      }
    }

    /** game_destroy: the arena is destroyed and released. */
    method Destroy()
      requires Valid()
      modifies this, ArenaRepr()
      ensures Valid() && arena == null
    {
      if arena != null {
        arena.Destroy();
        arena := null;
      }
    }
  }

  /** Appending an entity at a spawn spot to a populated list populates the list with one more symbol. */
  lemma {:induction false} PopulatedSnoc(ents: seq<Entity>, symbols: seq<char>, size: int, cells: seq<Terrain>, symbol: char, spawn: Vec2)
    requires |cells| == size * size && Populated(ents, symbols, size, cells)
    requires SpawnSpot(size, cells, Positions(ents), spawn)
    ensures Populated(ents + [Entities.Create(|ents| + 1, symbol, spawn, SpawnHealth, SpawnEnergy)], symbols + [symbol], size, cells)
    ensures Positions(ents + [Entities.Create(|ents| + 1, symbol, spawn, SpawnHealth, SpawnEnergy)]) == Positions(ents) + [spawn]
  {
    var ents' := ents + [Entities.Create(|ents| + 1, symbol, spawn, SpawnHealth, SpawnEnergy)];
    assert forall k :: 0 <= k <= |ents| ==> ents'[..k] == ents[..k];
  }
}
