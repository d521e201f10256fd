/**
 * A player of the game (core/player.h, core/player.c): the symbol that
 * names them, their score, the id of the arena entity they control
 * (-1 when they have none) and a connection flag.  Players are held by
 * value in the game's roster; the mutators return the updated record.
 */
module Players {
  const MaxPlayers := 8
  const NoEntity := -1

  datatype Player = Player(symbol: char, points: int, entityId: int, connected: bool)

  /** player_create: no points, no entity, not yet connected. */
  function Create(symbol: char): (p: Player)
    ensures p.symbol == symbol && p.points == 0 && !p.connected
    ensures p.entityId == NoEntity && !IsAlive(p)
  {
    Player(symbol, 0, NoEntity, false)
  }

  /** player_add_points: the score grows by exactly the argument; nothing else changes. */
  function AddPoints(p: Player, points: int): (r: Player)
    ensures r.points - p.points == points
    ensures r.(points := p.points) == p
  {
    p.(points := p.points + points)
  }

  /** Awarding points in two steps is the same as awarding their sum. */
  lemma {:induction false} AddPointsAccumulate(p: Player, a: int, b: int)
    ensures AddPoints(AddPoints(p, a), b) == AddPoints(p, a + b)
  {
  }

  /** player_is_alive: the player controls an entity on the current arena; an unbound player (entity -1) does not. */
  predicate IsAlive(p: Player)
  {
    p.entityId >= 0
  }

  /** player_reset: unbinds the entity and keeps symbol, points and connection. */
  function Reset(p: Player): (r: Player)
    ensures r.entityId == NoEntity && !IsAlive(r)
    ensures r.symbol == p.symbol && r.points == p.points && r.connected == p.connected
  {
    p.(entityId := NoEntity)
  }
}
