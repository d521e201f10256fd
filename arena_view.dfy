/**
 * The client's picture of the arena (ui/arena_view.h, ui/arena_view.c):
 * fixed-capacity tables of players, entities and spells, each filled by an
 * upsert that looks the id up with a linear scan, then either updates the
 * entry in place or appends one while there is room.  The tables keep
 * their ids distinct.
 */
module ArenaViews {

  const MaxArenaPlayers := 8
  const MaxArenaEntities := 32
  const MaxArenaSpells := 64
  /** PLAYER_PANEL_WIDTH */
  const PlayerPanelWidth := 27

  datatype ArenaPlayer = ArenaPlayer(id: int, symbol: char, points: int, entityId: int, isCurrentUser: int)

  /** damageTime is the wall-clock time (ms) of the last health loss seen, 0 for none. */
  datatype ArenaEntity = ArenaEntity(
    id: int, symbol: char, posX: int, posY: int, health: int, maxHealth: int,
    energy: int, maxEnergy: int, direction: int, spellType: int, isPlayer: int, damageTime: int)

  /** prevPosX/prevPosY and interpTimer drive the drawing of a spell between two cells. */
  datatype ArenaSpell = ArenaSpell(
    id: int, posX: int, posY: int, prevPosX: int, prevPosY: int,
    direction: int, spellType: int, interpTimer: real, active: int)

  /** The view's fields other than its three tables. */
  datatype ViewInfo = ViewInfo(
    arenaNumber: int, winnerPoints: int, mapSize: int,
    currentPlayerId: int, currentDirection: int, localDirection: int,
    gameFinished: bool, winnerSymbol: char, nextArenaCountdown: int, arenaWinnerSymbol: char)

  // ---------------------------------------------------------------------
  // Upserts, as functions of the tables
  // ---------------------------------------------------------------------

  /** No id occurs twice. */
  predicate Distinct(ids: seq<int>)
  {
    forall i, j :: 0 <= i < j < |ids| ==> ids[i] != ids[j]
  }

  /** The first index holding id, or -1: the scan of the upserts. */
  function IndexOf(ids: seq<int>, id: int): (i: int)
    ensures -1 <= i < |ids|
    ensures i >= 0 ==> ids[i] == id && forall k :: 0 <= k < i ==> ids[k] != id
    ensures i < 0 <==> id !in ids
    decreases |ids|
  {
    if |ids| == 0 then -1
    else if ids[|ids| - 1] == id && IndexOf(ids[..|ids| - 1], id) < 0 then |ids| - 1
    else IndexOf(ids[..|ids| - 1], id)
  }

  /**
   * The ids after an upsert of id: replaced in place (the id is already
   * there), appended (there is room), or unchanged.  An upsert keeps the
   * ids distinct, and afterwards id is there exactly when it was already
   * there or there was room.
   */
  lemma {:induction false} UpsertKeepsDistinct(ids: seq<int>, id: int, cap: int)
    requires Distinct(ids)
    ensures var i := IndexOf(ids, id);
      var r := if i >= 0 then ids[i := id] else if |ids| < cap then ids + [id] else ids;
      Distinct(r) && (id in r <==> id in ids || |ids| < cap)
  {
    var i := IndexOf(ids, id);
    if i >= 0 {
      assert ids[i := id] == ids;
    } else if |ids| < cap {
      var r := ids + [id];
      forall a, b | 0 <= a < b < |r|
        ensures r[a] != r[b]
      {
        if b == |ids| {
          assert r[a] == ids[a];
        }
      }
    }
  }

  function PlayerIds(ps: seq<ArenaPlayer>): (r: seq<int>)
    ensures |r| == |ps| && forall i :: 0 <= i < |ps| ==> r[i] == ps[i].id
  {
    seq(|ps|, i requires 0 <= i < |ps| => ps[i].id)
  }

  function EntityIds(es: seq<ArenaEntity>): (r: seq<int>)
    ensures |r| == |es| && forall i :: 0 <= i < |es| ==> r[i] == es[i].id
  {
    seq(|es|, i requires 0 <= i < |es| => es[i].id)
  }

  function SpellIds(ss: seq<ArenaSpell>): (r: seq<int>)
    ensures |r| == |ss| && forall i :: 0 <= i < |ss| ==> r[i] == ss[i].id
  {
    seq(|ss|, i requires 0 <= i < |ss| => ss[i].id)
  }

  /** arena_view_set_player on the table: the entry with p's id becomes p, or p is appended while fewer than 8. */
  function PlayersAfterSet(ps: seq<ArenaPlayer>, p: ArenaPlayer): (r: seq<ArenaPlayer>)
    ensures |r| == |ps| || (|r| == |ps| + 1 && |ps| < MaxArenaPlayers && r[|ps|] == p && p.id !in PlayerIds(ps))
    ensures forall k :: 0 <= k < |ps| && ps[k].id != p.id ==> r[k] == ps[k]
    ensures p.id in PlayerIds(ps) ==> p in r
  {
    var i := IndexOf(PlayerIds(ps), p.id);
    if i >= 0 then assert ps[i := p][i] == p; ps[i := p] else if |ps| < MaxArenaPlayers then ps + [p] else ps
  }

  /** Setting a player keeps the ids distinct and the table within 8; the player is then there, unless the table was full. */
  lemma {:induction false} SetPlayerUpserts(ps: seq<ArenaPlayer>, p: ArenaPlayer)
    requires Distinct(PlayerIds(ps)) && |ps| <= MaxArenaPlayers
    ensures var r := PlayersAfterSet(ps, p);
      && Distinct(PlayerIds(r)) && |r| <= MaxArenaPlayers
      && (p in r <==> p.id in PlayerIds(ps) || |ps| < MaxArenaPlayers)
      && (forall q :: q in ps && q.id != p.id ==> q in r)
      && (forall q :: q in r ==> q == p || q in ps)
  {
    var ids := PlayerIds(ps);
    var r := PlayersAfterSet(ps, p);
    var i := IndexOf(ids, p.id);
    UpsertKeepsDistinct(ids, p.id, MaxArenaPlayers);
    if i >= 0 {
      assert PlayerIds(r) == ids[i := p.id];
    } else if |ps| < MaxArenaPlayers {
      assert PlayerIds(r) == ids + [p.id];
    } else {
      forall k | 0 <= k < |r|
        ensures r[k] != p
      {
        assert ids[k] != p.id;
      }
    }
  }

  /**
   * The entry arena_view_set_entity writes: an existing entity keeps its
   * id and gets the new fields, with the damage time set to `now` when its
   * health went down and kept otherwise; a new entity starts with damage
   * time 0.
   */
  function EntityEntry(old_: seq<ArenaEntity>, e: ArenaEntity, now: int): (r: ArenaEntity)
    ensures r.id == e.id
    ensures r == e.(damageTime := r.damageTime)
    ensures e.id !in EntityIds(old_) ==> r.damageTime == 0
  {
    var i := IndexOf(EntityIds(old_), e.id);
    if i < 0 then e.(damageTime := 0)
    else if e.health < old_[i].health then e.(damageTime := now)
    else e.(damageTime := old_[i].damageTime)
  }

  /** arena_view_set_entity on the table: an upsert capped at 32. */
  function EntitiesAfterSet(es: seq<ArenaEntity>, e: ArenaEntity, now: int): (r: seq<ArenaEntity>)
    ensures |r| == |es| || (|r| == |es| + 1 && |es| < MaxArenaEntities && r[|es|] == e.(damageTime := 0) && e.id !in EntityIds(es))
    ensures forall k :: 0 <= k < |es| && es[k].id != e.id ==> r[k] == es[k]
    ensures e.id in EntityIds(es) || |es| < MaxArenaEntities ==> exists k :: 0 <= k < |r| && r[k] == e.(damageTime := r[k].damageTime)
  {
    var i := IndexOf(EntityIds(es), e.id);
    var entry := EntityEntry(es, e, now);
    if i >= 0 then assert es[i := entry][i] == entry; es[i := entry]
    else if |es| < MaxArenaEntities then assert (es + [entry])[|es|] == entry; es + [entry]
    else es
  }

  /** Setting an entity keeps the ids distinct and the table within 32; a damage time changes only on a loss of health. */
  lemma {:induction false} SetEntityUpserts(es: seq<ArenaEntity>, e: ArenaEntity, now: int)
    requires Distinct(EntityIds(es)) && |es| <= MaxArenaEntities
    ensures var r := EntitiesAfterSet(es, e, now);
      && Distinct(EntityIds(r)) && |r| <= MaxArenaEntities
      && (e.id in EntityIds(r) <==> e.id in EntityIds(es) || |es| < MaxArenaEntities)
      && (forall k :: 0 <= k < |es| && es[k].id != e.id ==> r[k] == es[k])
      && (forall k :: 0 <= k < |es| && es[k].id == e.id && e.health >= es[k].health ==> r[k].damageTime == es[k].damageTime)
  {
    var ids := EntityIds(es);
    var r := EntitiesAfterSet(es, e, now);
    var i := IndexOf(ids, e.id);
    UpsertKeepsDistinct(ids, e.id, MaxArenaEntities);
    if i >= 0 {
      assert EntityIds(r) == ids[i := e.id];
    } else if |es| < MaxArenaEntities {
      assert EntityIds(r) == ids + [e.id];
    }
  }

  /**
   * The entry arena_view_set_spell writes: an existing spell that moved
   * remembers its old cell as the previous one and restarts its
   * interpolation; one that did not move keeps both.  A new spell starts
   * with the previous cell equal to its cell and the interpolation done.
   */
  function SpellEntry(old_: seq<ArenaSpell>, s: ArenaSpell): (r: ArenaSpell)
    ensures r.id == s.id && r.posX == s.posX && r.posY == s.posY
    ensures r.direction == s.direction && r.spellType == s.spellType && r.active == s.active
    ensures s.id !in SpellIds(old_) ==> r.prevPosX == s.posX && r.prevPosY == s.posY && r.interpTimer == 1.0
  {
    var i := IndexOf(SpellIds(old_), s.id);
    if i < 0 then s.(prevPosX := s.posX, prevPosY := s.posY, interpTimer := 1.0)
    else
      var o := old_[i];
      if o.posX != s.posX || o.posY != s.posY then s.(prevPosX := o.posX, prevPosY := o.posY, interpTimer := 0.0)
      else s.(prevPosX := o.prevPosX, prevPosY := o.prevPosY, interpTimer := o.interpTimer)
  }

  /** arena_view_set_spell on the table: an upsert capped at 64. */
  function SpellsAfterSet(ss: seq<ArenaSpell>, s: ArenaSpell): (r: seq<ArenaSpell>)
    ensures |r| == |ss| || (|r| == |ss| + 1 && |ss| < MaxArenaSpells && s.id !in SpellIds(ss))
    ensures forall k :: 0 <= k < |ss| && ss[k].id != s.id ==> r[k] == ss[k]
    ensures s.id in SpellIds(ss) || |ss| < MaxArenaSpells ==>
      exists k :: 0 <= k < |r| && r[k].id == s.id && r[k].posX == s.posX && r[k].posY == s.posY && r[k].active == s.active
  {
    var i := IndexOf(SpellIds(ss), s.id);
    var entry := SpellEntry(ss, s);
    if i >= 0 then assert ss[i := entry][i] == entry; ss[i := entry]
    else if |ss| < MaxArenaSpells then assert (ss + [entry])[|ss|] == entry; ss + [entry]
    else ss
  }

  /** Setting a spell keeps the ids distinct and the table within 64; a spell that stays on its cell keeps its previous cell. */
  lemma {:induction false} SetSpellUpserts(ss: seq<ArenaSpell>, s: ArenaSpell)
    requires Distinct(SpellIds(ss)) && |ss| <= MaxArenaSpells
    ensures var r := SpellsAfterSet(ss, s);
      && Distinct(SpellIds(r)) && |r| <= MaxArenaSpells
      && (s.id in SpellIds(r) <==> s.id in SpellIds(ss) || |ss| < MaxArenaSpells)
      && (forall k :: 0 <= k < |ss| && ss[k].id != s.id ==> r[k] == ss[k])
      && (forall k :: 0 <= k < |ss| && ss[k].id == s.id && ss[k].posX == s.posX && ss[k].posY == s.posY ==>
            r[k].prevPosX == ss[k].prevPosX && r[k].prevPosY == ss[k].prevPosY)
  {
    var ids := SpellIds(ss);
    var r := SpellsAfterSet(ss, s);
    var i := IndexOf(ids, s.id);
    UpsertKeepsDistinct(ids, s.id, MaxArenaSpells);
    if i >= 0 {
      assert SpellIds(r) == ids[i := s.id];
    } else if |ss| < MaxArenaSpells {
      assert SpellIds(r) == ids + [s.id];
    }
  }

  /** arena_view_get_dimension: the player panel, a gap, and the map drawn two cells wide inside a frame; the map plus a frame and four lines. */
  function Dimension(mapSize: int): (r: (int, int))
    ensures r.0 == PlayerPanelWidth + 1 + 2 * mapSize + 2
    ensures r.1 == mapSize + 6
  {
    (PlayerPanelWidth + 1 + (mapSize * 2 + 2), 1 + 1 + (mapSize + 2) + 2)
  }

  // ---------------------------------------------------------------------
  // The ArenaView record
  // ---------------------------------------------------------------------

  class ArenaView {
    const players: array<ArenaPlayer>
    var playerCount: int
    const entities: array<ArenaEntity>
    var entityCount: int
    const spells: array<ArenaSpell>
    var spellCount: int

    var arenaNumber: int
    var winnerPoints: int
    var mapSize: int
    var currentPlayerId: int
    var currentDirection: int
    var localDirection: int
    var gameFinished: bool
    var winnerSymbol: char
    var nextArenaCountdown: int
    var arenaWinnerSymbol: char

    /** The three tables have their capacities, their counts fit, and their ids are distinct. */
    ghost predicate Valid()
      reads this, players, entities, spells
    {
      && players.Length == MaxArenaPlayers && entities.Length == MaxArenaEntities && spells.Length == MaxArenaSpells
      && 0 <= playerCount <= MaxArenaPlayers && 0 <= entityCount <= MaxArenaEntities && 0 <= spellCount <= MaxArenaSpells
      && Distinct(PlayerIds(players[..playerCount]))
      && Distinct(EntityIds(entities[..entityCount]))
      && Distinct(SpellIds(spells[..spellCount]))
    }

    ghost function Players(): seq<ArenaPlayer>
      reads this, players
      requires 0 <= playerCount <= players.Length
    {
      players[..playerCount]
    }

    ghost function Entities(): seq<ArenaEntity>
      reads this, entities
      requires 0 <= entityCount <= entities.Length
    {
      entities[..entityCount]
    }

    ghost function Spells(): seq<ArenaSpell>
      reads this, spells
      requires 0 <= spellCount <= spells.Length
    {
      spells[..spellCount]
    }

    ghost function Info(): ViewInfo
      reads this
    {
      ViewInfo(arenaNumber, winnerPoints, mapSize, currentPlayerId, currentDirection, localDirection,
               gameFinished, winnerSymbol, nextArenaCountdown, arenaWinnerSymbol)
    }

    /** arena_view_create: arena 1, no current player, no countdown, not finished, empty tables, looking down. */
    constructor (mapSize: int, winnerPoints: int)
      ensures Valid()
      ensures Players() == [] && Entities() == [] && Spells() == []
      ensures Info() == ViewInfo(1, winnerPoints, mapSize, -1, 0, 2, false, '\0', -1, '\0')
    {
      players := new ArenaPlayer[MaxArenaPlayers](_ => ArenaPlayer(0, '\0', 0, 0, 0));
      entities := new ArenaEntity[MaxArenaEntities](_ => ArenaEntity(0, '\0', 0, 0, 0, 0, 0, 0, 0, 0, 0, 0));
      spells := new ArenaSpell[MaxArenaSpells](_ => ArenaSpell(0, 0, 0, 0, 0, 0, 0, 0.0, 0));
      playerCount := 0;
      entityCount := 0;
      spellCount := 0;
      this.mapSize := mapSize;
      this.winnerPoints := winnerPoints;
      arenaNumber := 1;
      currentPlayerId := -1;
      currentDirection := 0;
      localDirection := 2;
      gameFinished := false;
      winnerSymbol := '\0';
      nextArenaCountdown := -1;
      arenaWinnerSymbol := '\0';
    }

    /** arena_view_set_player: the scan, then an update in place or an append. */
    method SetPlayer(id: int, symbol: char, points: int, entityId: int, isCurrent: int)
      requires Valid()
      modifies this, players
      ensures Valid()
      ensures Players() == PlayersAfterSet(old(Players()), ArenaPlayer(id, symbol, points, entityId, isCurrent))
      ensures Info() == old(Info()) && entityCount == old(entityCount) && spellCount == old(spellCount)
    {
      var p := ArenaPlayer(id, symbol, points, entityId, isCurrent);
      ghost var ps := Players();
      SetPlayerUpserts(ps, p);
      var i := FindPlayer(id);
      if i >= 0 {
        players[i] := p;
        assert players[..playerCount] == ps[i := p];
      } else if playerCount < MaxArenaPlayers {
        players[playerCount] := p;
        playerCount := playerCount + 1;
        assert players[..playerCount] == ps + [p];
      }
    }

    /** The scan of arena_view_set_player: the index of the player with this id, or -1. */
    method FindPlayer(id: int) returns (i: int)
      requires 0 <= playerCount <= players.Length
      ensures i == IndexOf(PlayerIds(Players()), id)
    {
      ghost var ids := PlayerIds(Players());
      i := 0;
      while i < playerCount
        invariant 0 <= i <= playerCount
        invariant forall k :: 0 <= k < i ==> ids[k] != id
      {
        if players[i].id == id {
          return;
        }
        i := i + 1;
      }
      i := -1;
    }

    /** arena_view_set_entity; `now` is the clock reading (get_time_ms) the update stamps a health loss with. */
    method SetEntity(e: ArenaEntity, now: int)
      requires Valid()
      modifies this, entities
      ensures Valid()
      ensures Entities() == EntitiesAfterSet(old(Entities()), e, now)
      ensures Info() == old(Info()) && playerCount == old(playerCount) && spellCount == old(spellCount)
    {
      ghost var es := Entities();
      SetEntityUpserts(es, e, now);
      var i := FindEntity(e.id);
      if i >= 0 {
        var stamp := if e.health < entities[i].health then now else entities[i].damageTime;
        entities[i] := e.(damageTime := stamp);
        assert entities[..entityCount] == es[i := EntityEntry(es, e, now)];
      } else if entityCount < MaxArenaEntities {
        entities[entityCount] := e.(damageTime := 0);
        entityCount := entityCount + 1;
        assert entities[..entityCount] == es + [EntityEntry(es, e, now)];
      }
    }

    /** The scan of arena_view_set_entity: the index of the entity with this id, or -1. */
    method FindEntity(id: int) returns (i: int)
      requires 0 <= entityCount <= entities.Length
      ensures i == IndexOf(EntityIds(Entities()), id)
    {
      ghost var ids := EntityIds(Entities());
      i := 0;
      while i < entityCount
        invariant 0 <= i <= entityCount
        invariant forall k :: 0 <= k < i ==> ids[k] != id
      {
        if entities[i].id == id {
          return;
        }
        i := i + 1;
      }
      i := -1;
    }

    /** arena_view_set_spell */
    method SetSpell(s: ArenaSpell)
      requires Valid()
      modifies this, spells
      ensures Valid()
      ensures Spells() == SpellsAfterSet(old(Spells()), s)
      ensures Info() == old(Info()) && playerCount == old(playerCount) && entityCount == old(entityCount)
    {
      ghost var ss := Spells();
      SetSpellUpserts(ss, s);
      var i := FindSpell(s.id);
      if i >= 0 {
        var o := spells[i];
        var entry := if o.posX != s.posX || o.posY != s.posY
          then s.(prevPosX := o.posX, prevPosY := o.posY, interpTimer := 0.0)
          else s.(prevPosX := o.prevPosX, prevPosY := o.prevPosY, interpTimer := o.interpTimer);
        spells[i] := entry;
        assert spells[..spellCount] == ss[i := SpellEntry(ss, s)];
      } else if spellCount < MaxArenaSpells {
        spells[spellCount] := s.(prevPosX := s.posX, prevPosY := s.posY, interpTimer := 1.0);
        spellCount := spellCount + 1;
        assert spells[..spellCount] == ss + [SpellEntry(ss, s)];
      }
    }

    /** The scan of arena_view_set_spell: the index of the spell with this id, or -1. */
    method FindSpell(id: int) returns (i: int)
      requires 0 <= spellCount <= spells.Length
      ensures i == IndexOf(SpellIds(Spells()), id)
    {
      ghost var ids := SpellIds(Spells());
      i := 0;
      while i < spellCount
        invariant 0 <= i <= spellCount
        invariant forall k :: 0 <= k < i ==> ids[k] != id
      {
        if spells[i].id == id {
          return;
        }
        i := i + 1;
      }
      i := -1;
    }

    /** arena_view_clear_players */
    method ClearPlayers()
      requires Valid()
      modifies this
      ensures Valid() && Players() == [] && Info() == old(Info())
      ensures entityCount == old(entityCount) && spellCount == old(spellCount)
    {
      playerCount := 0;
    }

    /** arena_view_clear_entities */
    method ClearEntities()
      requires Valid()
      modifies this
      ensures Valid() && Entities() == [] && Info() == old(Info())
      ensures playerCount == old(playerCount) && spellCount == old(spellCount)
    {
      entityCount := 0;
    }

    /** arena_view_clear_spells */
    method ClearSpells()
      requires Valid()
      modifies this
      ensures Valid() && Spells() == [] && Info() == old(Info())
      ensures playerCount == old(playerCount) && entityCount == old(entityCount)
    {
      spellCount := 0;
    }

    /** arena_view_set_current_player */
    method SetCurrentPlayer(playerId: int, direction: int)
      modifies this
      ensures Info() == old(Info()).(currentPlayerId := playerId, currentDirection := direction)
      ensures playerCount == old(playerCount) && entityCount == old(entityCount) && spellCount == old(spellCount)
    {
      currentPlayerId := playerId;
      currentDirection := direction;
    }

    /** arena_view_set_local_direction */
    method SetLocalDirection(direction: int)
      modifies this
      ensures Info() == old(Info()).(localDirection := direction)
      ensures playerCount == old(playerCount) && entityCount == old(entityCount) && spellCount == old(spellCount)
    {
      localDirection := direction;
    }

    /** arena_view_set_game_finished */
    method SetGameFinished(winner: char)
      modifies this
      ensures Info() == old(Info()).(gameFinished := true, winnerSymbol := winner)
      ensures playerCount == old(playerCount) && entityCount == old(entityCount) && spellCount == old(spellCount)
    {
      gameFinished := true;
      winnerSymbol := winner;
    }

    /** arena_view_set_next_arena */
    method SetNextArena(countdown: int, winner: char)
      modifies this
      ensures Info() == old(Info()).(nextArenaCountdown := countdown, arenaWinnerSymbol := winner)
      ensures playerCount == old(playerCount) && entityCount == old(entityCount) && spellCount == old(spellCount)
    {
      nextArenaCountdown := countdown;
      arenaWinnerSymbol := winner;
    }

    /** arena_view_set_arena_number */
    method SetArenaNumber(number: int)
      modifies this
      ensures Info() == old(Info()).(arenaNumber := number)
      ensures playerCount == old(playerCount) && entityCount == old(entityCount) && spellCount == old(spellCount)
    {
      arenaNumber := number;
    }

    /** arena_view_get_dimension */
    method GetDimension() returns (width: int, height: int)
      ensures (width, height) == Dimension(mapSize)
    {
      var mapTotalWidth := mapSize * 2 + 2;
      var mapTotalHeight := mapSize + 2;
      width := PlayerPanelWidth + 1 + mapTotalWidth;
      height := 1 + 1 + mapTotalHeight + 2;
    }
  }
}
