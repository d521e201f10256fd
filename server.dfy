/**
 * The server's packet handling (server/server.c) over the session room and
 * the game: accepting sockets into parked slots, cutting each session's TCP
 * stream into frames, the effects of the client commands (version,
 * subscribe, login, logout, move, cast), the UDP handshake, the routing of
 * broadcasts, and the game part of the main loop.
 *
 * Sockets are descriptors.  Each operation returns the sends it makes,
 * in order, as `Send` values; what a read returns is a parameter.
 */
module Servers {
  import opened Protocol
  import opened Encoder
  import opened Framing
  import opened Sessions
  import opened Players
  import opened Entities
  import opened Arenas
  import opened Games
  import opened Spells
  import opened Vectors
  import opened Directions
  import opened GridMap

  /** PROTOCOL_VERSION */
  const ProtocolVersion := "1.0.0"
  /** FRAME_TIME_MS / 1000.0f: the time one game step covers. */
  const FrameSeconds := 0.016

  /** A send the server makes: over a session's TCP socket or as a UDP datagram to a peer. */
  datatype Send = TcpSend(fd: int, bytes: seq<byte>) | UdpSend(to: Address, bytes: seq<byte>)

  /** The outcome of one read from a session's socket. */
  datatype Recv =
    | Bytes(data: seq<byte>)           // n > 0 bytes arrived
    | EndOfStream                      // n == 0: the peer closed
    | ReadError(wouldBlock: bool)      // n < 0, with errno EAGAIN/EWOULDBLOCK or not

  /** server_broadcast: one TCP copy to every active slot, in slot order. */
  function Broadcasts(ss: seq<Session>, data: seq<byte>): seq<Send>
  {
    if |ss| == 0 then []
    else Broadcasts(ss[..|ss| - 1], data) + (if ss[|ss| - 1].active then [TcpSend(ss[|ss| - 1].fd, data)] else [])
  }

  /** Where server_broadcast_game_step sends a slot's copy: UDP once confirmed, TCP before, nothing to an inactive slot. */
  function StepRoute(s: Session, data: seq<byte>): seq<Send>
  {
    if s.active && s.udpConnected then [UdpSend(s.udpAddr, data)]
    else if s.active then [TcpSend(s.fd, data)]
    else []
  }

  /** The copies of a game step, in slot order. */
  function StepRoutes(ss: seq<Session>, data: seq<byte>): seq<Send>
  {
    if |ss| == 0 then [] else StepRoutes(ss[..|ss| - 1], data) + StepRoute(ss[|ss| - 1], data)
  }

  /** A broadcast reaches every active slot exactly once, over TCP, with the same bytes. */
  lemma {:induction false} BroadcastsReachActive(ss: seq<Session>, data: seq<byte>)
    ensures |Broadcasts(ss, data)| == ActiveCount(ss)
    ensures forall m :: 0 <= m < |Broadcasts(ss, data)| ==> Broadcasts(ss, data)[m].TcpSend? && Broadcasts(ss, data)[m].bytes == data
  {
    if |ss| > 0 {
      BroadcastsReachActive(ss[..|ss| - 1], data);
    }
  }

  /** A game step reaches every active slot exactly once, and goes over UDP exactly to the confirmed ones. */
  lemma {:induction false} StepRoutesReachActive(ss: seq<Session>, data: seq<byte>)
    ensures |StepRoutes(ss, data)| == ActiveCount(ss)
    ensures forall m :: 0 <= m < |StepRoutes(ss, data)| ==> StepRoutes(ss, data)[m].bytes == data
    ensures |StepRoutes(ss, data)| == |Broadcasts(ss, data)|
    ensures forall m :: 0 <= m < |StepRoutes(ss, data)| ==>
      (StepRoutes(ss, data)[m].TcpSend? ==> StepRoutes(ss, data)[m] == Broadcasts(ss, data)[m])
  {
    if |ss| > 0 {
      StepRoutesReachActive(ss[..|ss| - 1], data);
    }
  }

  /** The DynamicInfo frame that lists the room's players. */
  function PlayersFrame(ss: seq<Session>): (r: seq<byte>)
  {
    ActiveSymbolsCount(ss);
    EncodeDynamicInfo(ActiveSymbols(ss), |ActiveSymbols(ss)|)
  }

  /** The spell kind a CastSkill command selects: 2 is POWER, any other byte BASIC. */
  function CastKind(raw: byte): (kind: SpellType)
    ensures raw == 1 || raw == 2 ==> kind.Code() == raw
    ensures raw != 2 ==> kind == Basic
  {
    if raw == 2 then Power else Basic
  }

  /**
   * The status a Login command earns, checked in the server's order: a
   * symbol outside 'A'..'Z' is INVALID_CHAR whatever the room holds, a
   * symbol an active session holds is ALREADY_USED, and only then is a
   * full room ROOM_FULL.
   */
  function LoginStatusOf(symbol: char, ss: seq<Session>, full: bool): (status: int)
    ensures status == LoginOk <==> 'A' <= symbol <= 'Z' && symbol !in ActiveSymbols(ss) && !full
    ensures !('A' <= symbol <= 'Z') ==> status == LoginInvalidChar
    ensures 'A' <= symbol <= 'Z' && symbol in ActiveSymbols(ss) ==> status == LoginAlreadyUsed
  {
    if !('A' <= symbol <= 'Z') then LoginInvalidChar
    else if symbol in ActiveSymbols(ss) then LoginAlreadyUsed
    else if full then LoginRoomFull
    else LoginOk
  }

  /**
   * The entity a session steers (server/server.c:382-419): only an active
   * session, only while the game is Playing, and only through the roster
   * player holding its symbol when that player is bound to an entity;
   * NO_ENTITY otherwise.
   */
  function Steered(s: Session, state: GameState, roster: seq<Player>): (id: int)
    ensures id >= 0 <==> s.active && state == Playing && IndexOfSymbol(roster, s.symbol) >= 0
                         && roster[IndexOfSymbol(roster, s.symbol)].entityId >= 0
    ensures id >= 0 ==> id == roster[IndexOfSymbol(roster, s.symbol)].entityId
    ensures id < 0 ==> id == NoEntity
  {
    if !s.active || state != Playing then NoEntity
    else
      var i := IndexOfSymbol(roster, s.symbol);
      if i >= 0 && roster[i].entityId >= 0 then roster[i].entityId else NoEntity
  }

  /** The slots after a ConnectUdp with this token: the first active session holding it learns the sender's address and is confirmed. */
  function UdpConfirmed(ss: seq<Session>, token: int, src: Address): seq<Session>
  {
    var k := FirstSlot(ss, ByToken(token));
    if k < 0 then ss else ss[k := ss[k].(udpAddr := src, udpConnected := true)]
  }

  /** What a ConnectUdp with this token sends: UdpConnected over the TCP socket of the session holding it, or nothing. */
  function UdpReply(ss: seq<Session>, token: int): seq<Send>
  {
    var k := FirstSlot(ss, ByToken(token));
    if k < 0 then [] else [TcpSend(ss[k].fd, EncodeUdpConnected())]
  }

  /** Two slot lists the probe hits at the same places have the same first hit. */
  lemma SameHitsSameSlot(a: seq<Session>, b: seq<Session>, p: Probe)
    requires |a| == |b|
    requires forall j :: 0 <= j < |a| ==> (Hits(a[j], p) <==> Hits(b[j], p))
    ensures FirstSlot(a, p) == FirstSlot(b, p)
  {
    var i, k := FirstSlot(a, p), FirstSlot(b, p);
    if i >= 0 {
      assert Hits(b[i], p);
    }
    if k >= 0 {
      assert Hits(a[k], p);
    }
  }

  /**
   * A ConnectUdp confirms the first active session holding the token with
   * the sender's address and answers exactly when there is one; every other
   * slot is left alone.
   */
  lemma UdpConfirmedSpec(ss: seq<Session>, token: int, src: Address)
    ensures |UdpConfirmed(ss, token, src)| == |ss|
    ensures forall j :: 0 <= j < |ss| && !(ss[j].active && ss[j].token == token) ==> UdpConfirmed(ss, token, src)[j] == ss[j]
    ensures forall j :: 0 <= j < |ss| && j == FirstSlot(ss, ByToken(token)) ==>
      UdpConfirmed(ss, token, src)[j] == ss[j].(udpAddr := src, udpConnected := true)
    ensures UdpReply(ss, token) != [] <==> exists j :: 0 <= j < |ss| && ss[j].active && ss[j].token == token
  {
    var k := FirstSlot(ss, ByToken(token));
    if k < 0 {
      assert forall j :: 0 <= j < |ss| ==> !Hits(ss[j], ByToken(token));
    }
  }

  /** The same ConnectUdp a second time changes nothing more. */
  lemma UdpConfirmedIdempotent(ss: seq<Session>, token: int, src: Address)
    ensures UdpConfirmed(UdpConfirmed(ss, token, src), token, src) == UdpConfirmed(ss, token, src)
  {
    var k := FirstSlot(ss, ByToken(token));
    if k >= 0 {
      var r := ss[k := ss[k].(udpAddr := src, udpConnected := true)];
      SameHitsSameSlot(ss, r, ByToken(token));
      assert r[k := r[k].(udpAddr := src, udpConnected := true)] == r;
    }
  }

  /** The roster's side of a logout (server/server.c:371): game_remove_player at game_get_player_index of the symbol. */
  method Unseat(game: Game, symbol: char)
    requires game.Valid()
    modifies game, game.players
    ensures game.Valid() && game.arena == old(game.arena) && game.state == old(game.state)
    ensures game.Roster() == Dropped(old(game.Roster()), symbol)
  {
    var index := game.GetPlayerIndex(symbol);
    game.RemovePlayer(index);
  }

  /** The room's side of a logout (server/server.c:372): room_session_remove with the session's own token, which names its slot alone. */
  method Depart(room: Room, cur: int)
    requires room.Valid() && 0 <= cur < MaxPlayers && room.sessions[cur].active
    modifies room, room.sessions
    ensures room.Valid()
    ensures room.sessions[..] == old(room.sessions[..])[cur := old(room.sessions[cur]).(fd := Close(old(room.sessions[cur].fd)), active := false, buffer := [])]
    ensures room.sessionCount == old(room.sessionCount) - 1 && room.nextToken == old(room.nextToken)
  {
    TokenNamesOneSlot(room, cur);
    room.Remove(room.sessions[cur].token);
  }

  /**
   * The game's side of one Playing iteration of server_run
   * (server/server.c:166-181): game_step of FrameSeconds, and when that
   * finished the game, the winner is read and the game goes back to
   * Waiting.  A game still running stays Playing with its arena; one that
   * went back to Waiting has a player with the winning score, and that is
   * the winner returned.
   */
  method Advance(game: Game, rand: nat -> nat, cursor: nat) returns (next: nat, finished: bool, winner: char)
    requires game.Valid() && game.state == Playing && game.arena != null
    modifies game, game.players, game.ArenaRepr()
    ensures game.Valid() && next >= cursor && game.arena != null
    ensures game.arena == old(game.arena) || fresh(game.ArenaRepr())
    ensures !finished ==> game.state == Playing
    ensures finished ==> game.state == Waiting && HasWinnerIn(game.Roster(), game.winnerPoints)
    ensures finished ==> winner == WinnerOf(game.Roster(), game.winnerPoints)
  {
    next := Play(game, rand, cursor);
    finished := game.state == Finished;
    winner := ' ';
    if finished {
      winner := Conclude(game);
    }
  }

  /** game_step of FrameSeconds on a Playing game: it stays Playing or is Finished with a winner, on its arena or on a fresh one. */
  method Play(game: Game, rand: nat -> nat, cursor: nat) returns (next: nat)
    requires game.Valid() && game.state == Playing && game.arena != null
    modifies game, game.players, game.ArenaRepr()
    ensures game.Valid() && next >= cursor && game.arena != null
    ensures game.arena == old(game.arena) || fresh(game.ArenaRepr())
    ensures game.state == Playing || game.state == Finished
    ensures game.state == Finished ==> HasWinnerIn(game.Roster(), game.winnerPoints)
  {
    next := game.Step(FrameSeconds, rand, cursor);
  }

  /** The end of a game as the server's loop handles it (server/server.c:171-181): the winner is read and the game goes back to Waiting, roster and arena untouched. */
  method Conclude(game: Game) returns (winner: char)
    requires game.Valid() && game.state == Finished
    modifies game
    ensures game.Valid() && game.state == Waiting && game.arena == old(game.arena)
    ensures game.Roster() == old(game.Roster())
    ensures winner == WinnerOf(game.Roster(), game.winnerPoints)
  {
    winner := game.GetWinner();
    game.state := Waiting;
  }

  /** game_start on a ready Waiting game: Playing on a fresh arena with the roster respawned. */
  method Launch(game: Game, rand: nat -> nat, cursor: nat) returns (next: nat)
    requires game.Valid() && game.IsReady()
    modifies game, game.players, game.ArenaRepr()
    ensures game.Valid() && next >= cursor
    ensures game.state == Playing && game.arena != null && fresh(game.arena)
    ensures game.Roster() == Spawned(old(game.Roster()))
  {
    next := game.Start(rand, cursor);
  }

  /** server_broadcast: a TCP copy of the data to every active session, in slot order. */
  method Broadcast(ss: seq<Session>, data: seq<byte>) returns (sent: seq<Send>)
    ensures sent == Broadcasts(ss, data)
  {
    sent := [];
    var i := 0;
    while i < |ss|
      invariant 0 <= i <= |ss|
      invariant sent == Broadcasts(ss[..i], data)
    {
      assert ss[..i + 1][..i] == ss[..i];
      if ss[i].active {
        sent := sent + [TcpSend(ss[i].fd, data)];
      }
      i := i + 1;
    }
    assert ss[..|ss|] == ss;
  }

  /** The loop of server_broadcast_game_step: each active session's copy over UDP once confirmed, over TCP before. */
  method SendStep(ss: seq<Session>, data: seq<byte>) returns (sent: seq<Send>)
    ensures sent == StepRoutes(ss, data)
  {
    sent := [];
    var i := 0;
    while i < |ss|
      invariant 0 <= i <= |ss|
      invariant sent == StepRoutes(ss[..i], data)
    {
      assert ss[..i + 1][..i] == ss[..i];
      var s := ss[i];
      if s.active && s.udpConnected {
        sent := sent + [UdpSend(s.udpAddr, data)];
      } else if s.active {
        sent := sent + [TcpSend(s.fd, data)];
      }
      i := i + 1;
    }
    assert ss[..|ss|] == ss;
  }

  /** server_broadcast_game_step: nothing without an arena, otherwise the routed copies of the arena's current step. */
  method BroadcastGameStep(game: Game, ss: seq<Session>) returns (sent: seq<Send>)
    requires game.Valid()
    ensures game.arena == null ==> sent == []
    ensures game.arena != null ==>
      sent == StepRoutes(ss, EncodeGameStep(game.arena.EntityList(), game.arena.SpellList(), game.Roster()))
  {
    if game.arena == null {
      return [];
    }
    var arena := game.arena;
    sent := SendStep(ss, EncodeGameStep(arena.entities[..arena.entityCount], arena.spells[..arena.spellCount], game.players[..game.playerCount]));
  }

  /**
   * The Playing half of the game part of server_run
   * (server/server.c:165-183), for the sessions `ss`: one game_step of
   * FrameSeconds, the routed game step, and, when the step finished the
   * game, the winner to every active session and the game back to
   * Waiting.  A game still running stays Playing; one that goes back to
   * Waiting has a player with the winning score.
   */
  method Tick(game: Game, ss: seq<Session>, rand: nat -> nat, cursor: nat) returns (next: nat, sent: seq<Send>)
    requires game.Valid() && game.state == Playing
    modifies game, game.players, game.ArenaRepr()
    ensures game.Valid() && next >= cursor
    ensures game.arena == old(game.arena) || fresh(game.ArenaRepr())
    ensures game.state == Playing || game.state == Waiting
    ensures game.state == Waiting ==> HasWinnerIn(game.Roster(), game.winnerPoints)
    ensures game.arena == null ==> game.state == Playing && sent == []
    ensures game.arena != null ==>
      sent == StepRoutes(ss, EncodeGameStep(game.arena.EntityList(), game.arena.SpellList(), game.Roster()))
              + (if game.state == Waiting then Broadcasts(ss, EncodeFinishGame(WinnerOf(game.Roster(), game.winnerPoints))) else [])
  {
    if game.arena == null {
      return cursor, [];
    }
    var finished, winner;
    next, finished, winner := Advance(game, rand, cursor);
    sent := StepSends(game, ss, finished, winner);
  }

  /** What a game step sends: the routed step, then, when the game finished, the winner to every active session. */
  method StepSends(game: Game, ss: seq<Session>, finished: bool, winner: char) returns (sent: seq<Send>)
    requires game.Valid() && game.arena != null
    ensures sent == StepRoutes(ss, EncodeGameStep(game.arena.EntityList(), game.arena.SpellList(), game.Roster()))
                    + (if finished then Broadcasts(ss, EncodeFinishGame(winner)) else [])
  {
    sent := BroadcastGameStep(game, ss);
    if finished {
      var finish := Broadcast(ss, EncodeFinishGame(winner));
      sent := sent + finish;
    }
  }

  /**
   * The Waiting half (server/server.c:185-198), for the sessions `ss`:
   * with the game ready, StartGame to every active session, game_start,
   * then the new arena's StartArena to every active session.
   */
  method Kickoff(game: Game, ss: seq<Session>, rand: nat -> nat, cursor: nat) returns (next: nat, sent: seq<Send>)
    requires game.Valid() && game.state == Waiting && game.IsReady()
    modifies game, game.players, game.ArenaRepr()
    ensures game.Valid() && next >= cursor
    ensures game.state == Playing && game.arena != null && fresh(game.arena)
    ensures game.Roster() == Spawned(old(game.Roster()))
    ensures sent == Broadcasts(ss, EncodeStartGame(game.winnerPoints))
                    + Broadcasts(ss, EncodeStartArena(game.arenaNumber, game.Roster(), game.arena.grid.size, game.arena.Cells()))
  {
    var start := Broadcast(ss, EncodeStartGame(game.winnerPoints));
    next := Launch(game, rand, cursor);
    var arena := game.arena;
    var layout := Broadcast(ss, EncodeStartArena(game.arenaNumber, game.players[..game.playerCount], arena.grid.size, arena.grid.ground[..]));
    sent := start + layout;
  }

  /**
   * A MovePlayer command from the session `s`: the steered entity (see `Steered`) takes one
   * step as arena_move_entity decides; a session that steers nothing
   * changes nothing.
   */
  method HandleMove(game: Game, s: Session, payload: seq<byte>)
    requires game.Valid()
    modifies game.ArenaRepr()
    ensures game.Valid()
    ensures game.arena != null ==> game.arena.SpellList() == old(game.arena.SpellList())
    ensures game.arena != null && Steered(s, game.state, game.Roster()) < 0 ==>
      game.arena.EntityList() == old(game.arena.EntityList())
    ensures game.arena != null && Steered(s, game.state, game.Roster()) >= 0 ==>
      game.arena.EntityList() == Moved(game.mapSize, game.arena.Cells(), old(game.arena.EntityList()),
                                       Steered(s, game.state, game.Roster()), DecodeMovePlayer(payload))
  {
    if !s.active || game.state != Playing {
      return;
    }
    var dir := DecodeMovePlayer(payload);
    var i := game.GetPlayerIndex(s.symbol);
    if i >= 0 && game.players[i].entityId >= 0 && game.arena != null {
      var _ := game.arena.MoveEntity(game.players[i].entityId, dir);
    }
  }

  /**
   * A CastSkill command from the session `s`: for the steered entity (see `Steered`) the kind
   * the command names is first recorded on the entity (`Selected`), then
   * arena_cast_spell runs on that list (`Cast`).  A session that steers
   * nothing changes nothing.
   */
  method HandleCast(game: Game, s: Session, payload: seq<byte>)
    requires game.Valid()
    modifies game.ArenaRepr()
    ensures game.Valid()
    ensures game.arena != null && Steered(s, game.state, game.Roster()) < 0 ==>
      game.arena.EntityList() == old(game.arena.EntityList()) && game.arena.SpellList() == old(game.arena.SpellList())
    ensures game.arena != null && Steered(s, game.state, game.Roster()) >= 0 ==>
      var id := Steered(s, game.state, game.Roster());
      var kind := CastKind(DecodeCastSkill(payload).1);
      (game.arena.EntityList(), game.arena.SpellList())
        == Cast(Selected(old(game.arena.EntityList()), id, kind), old(game.arena.SpellList()), old(game.arena.nextSpellId),
                id, DecodeCastSkill(payload).0, kind)
  {
    if !s.active || game.state != Playing {
      return;
    }
    var (dir, raw) := DecodeCastSkill(payload);
    var i := game.GetPlayerIndex(s.symbol);
    if i >= 0 && game.players[i].entityId >= 0 && game.arena != null {
      Fire(game.arena, game.players[i].entityId, dir, CastKind(raw));
    }
  }

  /**
   * The game part of one server_run iteration, for the sessions `ss`:
   * `Tick` while Playing, then `Kickoff` when the game is Waiting and
   * ready.  A Waiting game that is not ready is left alone, and a game the
   * server runs is never left Finished.
   */
  method RunGame(game: Game, ss: seq<Session>, rand: nat -> nat, cursor: nat) returns (next: nat, sent: seq<Send>)
    requires game.Valid()
    modifies game, game.players, game.ArenaRepr()
    ensures game.Valid() && next >= cursor
    ensures old(game.state) != Finished ==> game.state != Finished
    ensures old(game.state) == Waiting && !old(game.IsReady()) ==>
      game.state == Waiting && sent == [] && game.Roster() == old(game.Roster()) && next == cursor
    ensures old(game.state) == Waiting && old(game.IsReady()) ==>
      game.state == Playing && game.Roster() == Spawned(old(game.Roster()))
  {
    next := cursor;
    sent := [];
    if game.state == Playing {
      next, sent := Tick(game, ss, rand, cursor);
    }
    if game.state == Waiting && game.IsReady() {
      var more;
      next, more := Kickoff(game, ss, rand, next);
      sent := sent + more;
    }
  }

  /** The arena's side of a CastSkill command (server/server.c:411-416): record the kind on the entity, then cast it. */
  method Fire(arena: Arena, id: int, dir: Direction, kind: SpellType)
    requires arena.Valid()
    modifies arena, arena.entities, arena.spells
    ensures arena.Valid()
    ensures (arena.EntityList(), arena.SpellList())
      == Cast(Selected(old(arena.EntityList()), id, kind), old(arena.SpellList()), old(arena.nextSpellId), id, dir, kind)
  {
    arena.SelectSpellType(id, kind);
    var _ := arena.CastSpell(id, dir, kind);
  }

  /**
   * Where process_session_tcp_buffer stands on the buffer it started from,
   * `orig`: the frames `handled` so far are the leading frames of `orig`,
   * and the session's buffer `buf` holds the frames not yet handled and
   * the same rest, or is empty after a Logout, the last frame handled.
   */
  ghost predicate Progress(orig: seq<byte>, handled: seq<seq<byte>>, dropped: bool, buf: seq<byte>)
  {
    && |handled| <= |Frames(orig)| && handled == Frames(orig)[..|handled|]
    && (!dropped ==> Frames(orig) == handled + Frames(buf) && Rest(orig) == Rest(buf))
    && (dropped ==> buf == [] && |handled| > 0 && DecodeHeader(handled[|handled| - 1]).messageType == ClientLogout)
  }

  /**
   * What a pass of process_session_tcp_buffer over `orig` handled: its
   * leading frames, in order, all of them unless the last one handled was
   * a Logout.
   */
  ghost predicate HandledPrefix(orig: seq<byte>, handled: seq<seq<byte>>)
  {
    && |handled| <= |Frames(orig)| && handled == Frames(orig)[..|handled|]
    && (handled != Frames(orig) ==> |handled| > 0 && DecodeHeader(handled[|handled| - 1]).messageType == ClientLogout)
  }

  /** One turn of the loop: handling the leading frame of `buf`, which leaves `after` (see `Consume`), keeps `Progress`. */
  lemma {:induction false} FrameHandled(orig: seq<byte>, handled: seq<seq<byte>>, dropped: bool, buf: seq<byte>, after: seq<byte>, d: bool)
    requires Progress(orig, handled, dropped, buf) && Complete(buf)
    requires !d ==> Frames(buf) == [buf[..FrameSize(buf)]] + Frames(after) && Rest(buf) == Rest(after)
    requires d ==> after == [] && DecodeHeader(buf[..FrameSize(buf)]).messageType == ClientLogout
    ensures Progress(orig, handled + [buf[..FrameSize(buf)]], dropped || d, after)
  {
    var frame := buf[..FrameSize(buf)];
    assert Frames(buf) == [frame] + Frames(buf[FrameSize(buf)..]);
    assert Frames(orig) == (handled + [frame]) + Frames(buf[FrameSize(buf)..]);
    assert (handled + [frame])[|handled|] == frame;
  }

  /** When no whole frame is left, `Progress` says every frame was handled and the rest kept, or the buffer was emptied by a Logout. */
  lemma {:induction false} Drained(orig: seq<byte>, handled: seq<seq<byte>>, dropped: bool, buf: seq<byte>)
    requires Progress(orig, handled, dropped, buf) && !Complete(buf)
    ensures HandledPrefix(orig, handled)
    ensures || (handled == Frames(orig) && buf == Rest(orig))
            || (buf == [] && |handled| > 0 && DecodeHeader(handled[|handled| - 1]).messageType == ClientLogout)
  {
    if !dropped {
      assert Frames(buf) == [] && Rest(buf) == buf;
    }
  }

  /** The payload of the frame that starts a buffer: what follows the header, up to the length the header declares. */
  function LeadingPayload(buf: seq<byte>): (p: seq<byte>)
    requires Complete(buf)
    ensures |p| == DecodeHeader(buf).dataLength
    ensures buf[..FrameSize(buf)] == Frame(DecodeHeader(buf).messageType, p)
  {
    var p := buf[HeaderSize..FrameSize(buf)];
    HeaderRoundTrip(buf);
    assert buf[..FrameSize(buf)] == buf[..HeaderSize] + p;
    p
  }

  /**
   * What a command other than Login and Logout sends back to the sender's
   * socket `fd` (server/server.c:268-290): the version, marked compatible,
   * for Version; the static settings `staticInfo` then the room's player
   * list for SubscribeInfo; nothing for any other type.
   */
  function CommandSends(t: int, fd: int, staticInfo: seq<byte>, ss: seq<Session>): (r: seq<Send>)
  {
    if t == ClientVersion then [TcpSend(fd, EncodeVersionResponse(ProtocolVersion, 1))]
    else if t == ClientSubscribeInfo then [TcpSend(fd, staticInfo), TcpSend(fd, PlayersFrame(ss))]
    else []
  }

  /**
   * What a command does to the arena's entities and spells
   * (server/server.c:382-419), for the entity `id` the sender steers
   * (`Steered`, negative when none): a MovePlayer moves it as
   * arena_move_entity does, a CastSkill records the kind on it and casts as
   * arena_cast_spell does; every other command, and any command from a
   * session that steers nothing, leaves both lists as they were.
   */
  function CommandArena(ents: seq<Entity>, spells: seq<Spell>, nextSpellId: int, size: int, cells: seq<Terrain>,
                        t: int, id: int, payload: seq<byte>): (r: (seq<Entity>, seq<Spell>))
    requires |cells| == size * size
  {
    if t == ClientMovePlayer && id >= 0 then (Moved(size, cells, ents, id, DecodeMovePlayer(payload)), spells)
    else if t == ClientCastSkill && id >= 0 then
      var kind := CastKind(DecodeCastSkill(payload).1);
      Cast(Selected(ents, id, kind), spells, nextSpellId, id, DecodeCastSkill(payload).0, kind)
    else (ents, spells)
  }

  class Server {
    const room: Room
    const game: Game
    const udpPort: int

    /** The room and the game are consistent on their own, and the room's limit fits its table. */
    ghost predicate Valid()
      reads room, room.sessions, game, game.players, game.ArenaRepr()
    {
      room.Valid() && game.Valid() && room.maxPlayers <= MaxPlayers
    }

    /**
     * What a Login frame at the front of slot `cur`'s buffer did, the
     * session now being in slot `next` (server/server.c:293-366): the status
     * is `LoginStatusOf` the symbol and the room as they were.  A refusal
     * changes nothing and answers the status with token 0 to the sender.  A
     * success seats the session as `LoggedIn` says, adds the player to the
     * roster (`Admitted`), answers OK with the token, and broadcasts the new
     * player list.
     */
    twostate predicate LoginHandled(cur: int, next: int, sent: seq<Send>)
      requires old(Valid()) && Valid() && 0 <= cur < MaxPlayers && old(Complete(room.sessions[cur].buffer))
      reads this, room, room.sessions, game, game.players, game.ArenaRepr()
    {
      var buf := old(room.sessions[cur].buffer);
      var frame := buf[..FrameSize(buf)];
      var symbol := DecodeLogin(frame[HeaderSize..]);
      var status := LoginStatusOf(symbol, old(room.sessions[..]), old(room.sessionCount) >= room.maxPlayers);
      && (status != LoginOk ==>
            && next == cur && room.sessions[..] == old(room.sessions[..])
            && room.sessionCount == old(room.sessionCount) && room.nextToken == old(room.nextToken)
            && game.Roster() == old(game.Roster())
            && sent == [TcpSend(old(room.sessions[cur].fd), EncodeLoginStatus(symbol, status, 0))])
      && (status == LoginOk ==>
            (VacancyExists(old(room.sessions[..]));
             && next == FirstSlot(old(room.sessions[..]), Vacant)
             && room.sessions[..] == LoggedIn(old(room.sessions[..]), cur, symbol, old(room.nextToken), |frame|)
             && room.sessionCount == old(room.sessionCount) + 1 && room.nextToken == old(room.nextToken) + 1
             && game.Roster() == Admitted(old(game.Roster()), symbol, game.maxPlayers)
             && sent == [TcpSend(old(room.sessions[cur].fd), EncodeLoginStatus(symbol, LoginOk, old(room.nextToken)))]
                        + Broadcasts(room.sessions[..], PlayersFrame(room.sessions[..]))))
    }

    /**
     * What a Logout frame from slot `cur` did (server/server.c:368-380): an
     * active session left as `Leave` says; an inactive one was ignored,
     * nothing changed and nothing was sent.
     */
    twostate predicate LogoutHandled(cur: int, sent: seq<Send>)
      requires old(Valid()) && Valid() && 0 <= cur < MaxPlayers
      reads this, room, room.sessions, game, game.players, game.ArenaRepr()
    {
      && (old(room.sessions[cur].active) ==>
            && game.Roster() == Dropped(old(game.Roster()), old(room.sessions[cur].symbol))
            && room.sessions[..] == old(room.sessions[..])[cur := old(room.sessions[cur]).(fd := Close(old(room.sessions[cur].fd)), active := false, buffer := [])]
            && room.sessionCount == old(room.sessionCount) - 1 && room.nextToken == old(room.nextToken)
            && sent == Broadcasts(room.sessions[..], PlayersFrame(room.sessions[..])))
      && (!old(room.sessions[cur].active) ==>
            && sent == [] && game.Roster() == old(game.Roster())
            && room.sessions[..] == old(room.sessions[..])
            && room.sessionCount == old(room.sessionCount) && room.nextToken == old(room.nextToken))
    }

    /**
     * What any other frame from slot `cur` did (server/server.c:268-290,
     * 382-431): the room and the roster are untouched, the answer is
     * `CommandSends` and the arena's lists become `CommandArena` of the old
     * ones, for the entity the session steers.
     */
    twostate predicate CommandHandled(cur: int, sent: seq<Send>)
      requires old(Valid()) && Valid() && 0 <= cur < MaxPlayers && old(Complete(room.sessions[cur].buffer))
      requires game.arena == old(game.arena)
      reads this, room, room.sessions, game, game.players, game.ArenaRepr(), if game.arena == null then {} else {game.arena.grid.ground}
    {
      var t := DecodeHeader(old(room.sessions[cur].buffer)).messageType;
      && unchanged(room, room.sessions, game, game.players)
      && sent == CommandSends(t, old(room.sessions[cur].fd),
                              EncodeStaticInfo(udpPort, game.mapSize, game.winnerPoints, game.maxPlayers), old(room.sessions[..]))
      && (game.arena != null ==>
            (game.arena.EntityList(), game.arena.SpellList())
              == CommandArena(old(game.arena.EntityList()), old(game.arena.SpellList()), old(game.arena.nextSpellId),
                              game.mapSize, game.arena.Cells(), t,
                              Steered(old(room.sessions[cur]), game.state, game.Roster()), LeadingPayload(old(room.sessions[cur].buffer))))
    }

    /**
     * server_create, without the listening sockets: an empty room and a
     * new game with the same player limit.
     */
    constructor (udpPort: int, maxPlayers: int, mapSize: int, winnerPoints: int)
      requires mapSize > 2 && maxPlayers <= MaxPlayers
      ensures Valid() && this.udpPort == udpPort
      ensures fresh(room) && fresh(room.sessions) && fresh(game) && fresh(game.players)
      ensures room.maxPlayers == maxPlayers && room.sessionCount == 0
      ensures game.maxPlayers == maxPlayers && game.mapSize == mapSize && game.winnerPoints == winnerPoints
      ensures game.state == Waiting && game.arena == null && game.Roster() == []
    {
      this.udpPort := udpPort;
      room := new Room(maxPlayers);
      game := new Game(mapSize, winnerPoints, maxPlayers);
    }

    /**
     * server_handle_connection after a successful accept: the socket is
     * parked in the first slot that is inactive and has no socket, and is
     * dropped when there is none.
     */
    method Accept(fd: int)
      requires Valid()
      modifies room.sessions
      ensures Valid()
      ensures fd < 0 || old(FirstSlot(room.sessions[..], Parked)) < 0 ==> room.sessions[..] == old(room.sessions[..])
      ensures fd >= 0 && old(FirstSlot(room.sessions[..], Parked)) >= 0 ==>
        var k := old(FirstSlot(room.sessions[..], Parked));
        room.sessions[..] == old(room.sessions[..])[k := old(room.sessions[k]).(fd := fd)]
    {
      if fd < 0 {
        return;
      }
      var k := room.Find(Parked);
      if k >= 0 {
        room.Update(k, room.sessions[k].(fd := fd));
      }
    }

    /** The player-list broadcast that follows a login, a logout and a disconnect. */
    method BroadcastPlayers() returns (sent: seq<Send>)
      requires Valid()
      ensures Valid()
      ensures sent == Broadcasts(room.sessions[..], PlayersFrame(room.sessions[..]))
    {
      var symbols, count := room.GetSymbols();
      sent := Broadcast(room.sessions[..], EncodeDynamicInfo(symbols, count));
    }

    /** A Version command: the server's version, marked compatible, back to the sender. */
    method HandleVersion(cur: int) returns (sent: seq<Send>)
      requires Valid() && 0 <= cur < MaxPlayers
      ensures Valid()
      ensures sent == [TcpSend(room.sessions[cur].fd, EncodeVersionResponse(ProtocolVersion, 1))]
    {
      sent := [TcpSend(room.sessions[cur].fd, EncodeVersionResponse(ProtocolVersion, 1))];
    }

    /** A SubscribeInfo command: the static game settings, then the player list, back to the sender. */
    method HandleSubscribe(cur: int) returns (sent: seq<Send>)
      requires Valid() && 0 <= cur < MaxPlayers
      ensures Valid()
      ensures sent == [
        TcpSend(room.sessions[cur].fd, EncodeStaticInfo(udpPort, game.mapSize, game.winnerPoints, game.maxPlayers)),
        TcpSend(room.sessions[cur].fd, PlayersFrame(room.sessions[..]))]
    {
      var fd := room.sessions[cur].fd;
      var symbols, count := room.GetSymbols();
      sent := [TcpSend(fd, EncodeStaticInfo(udpPort, game.mapSize, game.winnerPoints, game.maxPlayers)),
               TcpSend(fd, EncodeDynamicInfo(symbols, count))];
    }

    /**
     * A Login command (server/server.c:293-366).  The status is
     * `LoginStatusOf` the decoded symbol and the room; on success the room
     * and the game change as `Admit` says and the sender's slot becomes
     * the new one.  The status goes back on the sender's socket (with
     * token 0 on failure), and a success is followed by the new player
     * list to every active session.
     */
    method HandleLogin(cur: int, frame: seq<byte>) returns (next: int, status: int, sent: seq<Send>)
      requires Valid() && 0 <= cur < MaxPlayers && |frame| >= HeaderSize
      modifies room, room.sessions, game, game.players
      ensures Valid() && game.arena == old(game.arena) && game.state == old(game.state) && 0 <= next < MaxPlayers
      ensures status == LoginStatusOf(DecodeLogin(frame[HeaderSize..]), old(room.sessions[..]), old(room.sessionCount) >= room.maxPlayers)
      ensures status != LoginOk ==>
        && next == cur && room.sessions[..] == old(room.sessions[..])
        && room.sessionCount == old(room.sessionCount) && room.nextToken == old(room.nextToken)
        && game.Roster() == old(game.Roster())
        && sent == [TcpSend(old(room.sessions[cur].fd), EncodeLoginStatus(DecodeLogin(frame[HeaderSize..]), status, 0))]
      ensures status == LoginOk ==>
        var symbol := DecodeLogin(frame[HeaderSize..]);
        && next == FirstSlot(old(room.sessions[..]), Vacant)
        && room.sessions[..] == LoggedIn(old(room.sessions[..]), cur, symbol, old(room.nextToken), |frame|)
        && room.sessionCount == old(room.sessionCount) + 1 && room.nextToken == old(room.nextToken) + 1
        && game.Roster() == Admitted(old(game.Roster()), symbol, game.maxPlayers)
        && sent == [TcpSend(old(room.sessions[cur].fd), EncodeLoginStatus(symbol, LoginOk, old(room.nextToken)))]
                   + Broadcasts(room.sessions[..], PlayersFrame(room.sessions[..]))
    {
      var symbol := DecodeLogin(frame[HeaderSize..]);
      status := LoginVerdict(symbol);
      if status == LoginOk {
        next, sent := Welcome(cur, symbol, |frame|);
      } else {
        next := cur;
        sent := [TcpSend(room.sessions[cur].fd, EncodeLoginStatus(symbol, status, 0))];
      }
    }

    /** A successful login: `Admit`, the OK status with the token to the sender, then the player list to everyone. */
    method Welcome(cur: int, symbol: char, frameLen: int) returns (next: int, sent: seq<Send>)
      requires Valid() && 0 <= cur < MaxPlayers && frameLen >= HeaderSize
      requires symbol !in ActiveSymbols(room.sessions[..]) && room.sessionCount < room.maxPlayers
      modifies room, room.sessions, game, game.players
      ensures Valid() && game.arena == old(game.arena) && game.state == old(game.state)
      ensures next == FirstSlot(old(room.sessions[..]), Vacant) && 0 <= next < MaxPlayers
      ensures room.sessions[..] == LoggedIn(old(room.sessions[..]), cur, symbol, old(room.nextToken), frameLen)
      ensures room.sessionCount == old(room.sessionCount) + 1 && room.nextToken == old(room.nextToken) + 1
      ensures game.Roster() == Admitted(old(game.Roster()), symbol, game.maxPlayers)
      ensures sent == [TcpSend(old(room.sessions[cur].fd), EncodeLoginStatus(symbol, LoginOk, old(room.nextToken)))]
                      + Broadcasts(room.sessions[..], PlayersFrame(room.sessions[..]))
    {
      var fd := room.sessions[cur].fd;
      var token;
      next, token := Admit(cur, symbol, frameLen);
      var list := BroadcastPlayers();
      sent := [TcpSend(fd, EncodeLoginStatus(symbol, LoginOk, token))] + list;
    }

    /** The checks of a Login command, made by scanning the room. */
    method LoginVerdict(symbol: char) returns (status: int)
      requires Valid()
      ensures status == LoginStatusOf(symbol, room.sessions[..], room.sessionCount >= room.maxPlayers)
    {
      if symbol < 'A' || symbol > 'Z' {
        return LoginInvalidChar;
      }
      var held := room.FindBySymbol(symbol);
      if held >= 0 {
        return LoginAlreadyUsed;
      }
      if room.IsFull() {
        return LoginRoomFull;
      }
      return LoginOk;
    }

    /**
     * A Logout command, and the read of end-of-stream or of an error from
     * an active session (server/server.c:368-380, 111-139): the player
     * leaves the game, the session is removed from the room (its socket
     * closed, its buffer emptied) and the new player list goes to the
     * sessions still active.
     */
    method Leave(cur: int) returns (sent: seq<Send>)
      requires Valid() && 0 <= cur < MaxPlayers && room.sessions[cur].active
      modifies room, room.sessions, game, game.players
      ensures Valid() && game.arena == old(game.arena) && game.state == old(game.state)
      ensures game.Roster() == Dropped(old(game.Roster()), old(room.sessions[cur].symbol))
      ensures room.sessions[..] == old(room.sessions[..])[cur := old(room.sessions[cur]).(fd := Close(old(room.sessions[cur].fd)), active := false, buffer := [])]
      ensures room.sessionCount == old(room.sessionCount) - 1 && room.nextToken == old(room.nextToken)
      ensures sent == Broadcasts(room.sessions[..], PlayersFrame(room.sessions[..]))
    {
      Unseat(game, room.sessions[cur].symbol);
      Depart(room, cur);
      sent := BroadcastPlayers();
    }

    /** End-of-stream or a read error on a socket that never logged in (server/server.c:127-131, 141-144): the socket is closed and the buffer emptied. */
    method Hangup(cur: int)
      requires Valid() && 0 <= cur < MaxPlayers && !room.sessions[cur].active
      modifies room.sessions
      ensures Valid()
      ensures room.sessions[..] == old(room.sessions[..])[cur := old(room.sessions[cur]).(fd := Close(old(room.sessions[cur].fd)), buffer := [])]
    {
      var s := room.sessions[cur];
      room.Update(cur, s.(fd := Close(s.fd), buffer := []));
    }

    /**
     * server_handle_udp: a ConnectUdp datagram whose token an active
     * session holds records the sender's address on that session, marks it
     * confirmed and sends UdpConnected over its TCP socket; any other
     * datagram, a short one, or an unknown token changes nothing.
     */
    method HandleUdp(data: seq<byte>, src: Address) returns (sent: seq<Send>)
      requires room.Valid()
      modifies room.sessions
      ensures room.Valid()
      ensures !(|data| >= HeaderSize && DecodeHeader(data).messageType == ClientConnectUdp) ==>
        room.sessions[..] == old(room.sessions[..]) && sent == []
      ensures |data| >= HeaderSize && DecodeHeader(data).messageType == ClientConnectUdp ==>
        && room.sessions[..] == UdpConfirmed(old(room.sessions[..]), DecodeConnectUdp(data[HeaderSize..]), src)
        && sent == UdpReply(old(room.sessions[..]), DecodeConnectUdp(data[HeaderSize..]))
    {
      if |data| < HeaderSize || DecodeHeader(data).messageType != ClientConnectUdp {
        return [];
      }
      sent := ConfirmUdp(DecodeConnectUdp(data[HeaderSize..]), src);
    }

    /**
     * The session whose token a ConnectUdp datagram carries learns the
     * sender's address, is marked confirmed and is told so over TCP.
     */
    method ConfirmUdp(token: int, src: Address) returns (sent: seq<Send>)
      requires room.Valid()
      modifies room.sessions
      ensures room.Valid()
      ensures room.sessions[..] == UdpConfirmed(old(room.sessions[..]), token, src)
      ensures sent == UdpReply(old(room.sessions[..]), token)
    {
      ghost var ss := room.sessions[..];
      var k := room.Find(ByToken(token));
      assert k == FirstSlot(ss, ByToken(token));
      sent := [];
      if k >= 0 {
        var s := room.sessions[k];
        sent := [TcpSend(s.fd, EncodeUdpConnected())];
        room.Update(k, s.(udpAddr := src, udpConnected := true));
        assert room.sessions[..] == ss[k := s.(udpAddr := src, udpConnected := true)] == UdpConfirmed(ss, token, src);
        assert sent == UdpReply(ss, token);
      } else {
        assert UdpConfirmed(ss, token, src) == ss && UdpReply(ss, token) == [];
      }
    }

    /**
     * handle_single_packet on the whole frame that starts a session's
     * buffer, dispatched on its message type (server/server.c:259-431).
     * Returns the slot the session continues in (another one after a
     * successful Login).  A Login has the effect of `LoginPacket`; a Logout
     * from an active session has the effect of `Leave`, and one from an
     * inactive session is ignored; every other type has the effect of
     * `Command`.
     */
    method HandlePacket(cur: int) returns (next: int, sent: seq<Send>)
      requires Valid() && 0 <= cur < MaxPlayers && Complete(room.sessions[cur].buffer)
      modifies room, room.sessions, game, game.players, game.ArenaRepr()
      ensures Valid() && game.arena == old(game.arena) && game.state == old(game.state) && 0 <= next < MaxPlayers
      ensures var buf := old(room.sessions[cur].buffer);
        || room.sessions[next].buffer == buf
        || room.sessions[next].buffer == buf[FrameSize(buf)..]
        || (room.sessions[next].buffer == [] && DecodeHeader(buf).messageType == ClientLogout)
      ensures var t := DecodeHeader(old(room.sessions[cur].buffer)).messageType;
        t == ClientLogin || t == ClientLogout ==> (game.arena != null ==> game.arena.EntityList() == old(game.arena.EntityList()) && game.arena.SpellList() == old(game.arena.SpellList()))
      ensures var t := DecodeHeader(old(room.sessions[cur].buffer)).messageType;
        && (t == ClientLogin ==> LoginHandled(cur, next, sent))
        && (t == ClientLogout ==> next == cur && LogoutHandled(cur, sent))
        && (t != ClientLogin && t != ClientLogout ==> next == cur && CommandHandled(cur, sent))
    {
      var buf := room.sessions[cur].buffer;
      var t := DecodeHeader(buf).messageType;
      next := cur;
      sent := [];
      if t == ClientLogin {
        next, sent := LoginPacket(cur);
      } else if t == ClientLogout {
        sent := LogoutPacket(cur);
      } else {
        sent := Command(cur);
      }
    }

    /** A Logout frame (server/server.c:368-380): an active session leaves as `Leave` says; an inactive one is ignored. */
    method LogoutPacket(cur: int) returns (sent: seq<Send>)
      requires Valid() && 0 <= cur < MaxPlayers
      modifies room, room.sessions, game, game.players
      ensures Valid() && game.arena == old(game.arena) && game.state == old(game.state)
      ensures (game.arena != null ==> game.arena.EntityList() == old(game.arena.EntityList()) && game.arena.SpellList() == old(game.arena.SpellList()))
      ensures LogoutHandled(cur, sent)
    {
      sent := [];
      if room.sessions[cur].active {
        sent := Leave(cur);
      }
    }

    /**
     * The commands of handle_single_packet that leave the room and the
     * roster alone.  Version and SubscribeInfo answer the sender
     * (`CommandSends`); MovePlayer and CastSkill act on the arena as
     * `HandleMove` and `HandleCast` say (`CommandArena`); TrustUdp,
     * ConnectUdp over TCP and unknown types change nothing and send
     * nothing.
     */
    method Command(cur: int) returns (sent: seq<Send>)
      requires Valid() && 0 <= cur < MaxPlayers && Complete(room.sessions[cur].buffer)
      requires DecodeHeader(room.sessions[cur].buffer).messageType != ClientLogin
      requires DecodeHeader(room.sessions[cur].buffer).messageType != ClientLogout
      modifies game.ArenaRepr()
      ensures Valid()
      ensures game.arena == old(game.arena) && CommandHandled(cur, sent)
    {
      sent := Reply(cur);
      Steer(cur);
    }

    /** The answers of handle_single_packet to a Version or SubscribeInfo command (server/server.c:268-290); no other command is answered. */
    method Reply(cur: int) returns (sent: seq<Send>)
      requires Valid() && 0 <= cur < MaxPlayers
      ensures Valid()
      ensures sent == CommandSends(DecodeHeader(room.sessions[cur].buffer).messageType, room.sessions[cur].fd,
                                   EncodeStaticInfo(udpPort, game.mapSize, game.winnerPoints, game.maxPlayers), room.sessions[..])
    {
      var t := DecodeHeader(room.sessions[cur].buffer).messageType;
      sent := [];
      if t == ClientVersion {
        sent := HandleVersion(cur);
      } else if t == ClientSubscribeInfo {
        sent := HandleSubscribe(cur);
      }
    }

    /** The arena side of handle_single_packet (server/server.c:382-419): a MovePlayer or CastSkill frame steers the sender's entity as `CommandArena` says. */
    method Steer(cur: int)
      requires Valid() && 0 <= cur < MaxPlayers && Complete(room.sessions[cur].buffer)
      modifies game.ArenaRepr()
      ensures Valid() && unchanged(room, room.sessions, game, game.players)
      ensures game.arena != null ==>
        (game.arena.EntityList(), game.arena.SpellList())
          == CommandArena(old(game.arena.EntityList()), old(game.arena.SpellList()), old(game.arena.nextSpellId),
                          game.mapSize, game.arena.Cells(), DecodeHeader(old(room.sessions[cur].buffer)).messageType,
                          Steered(old(room.sessions[cur]), game.state, game.Roster()), LeadingPayload(old(room.sessions[cur].buffer)))
    {
      var buf := room.sessions[cur].buffer;
      var t := DecodeHeader(buf).messageType;
      var payload := buf[HeaderSize..FrameSize(buf)];
      if t == ClientMovePlayer {
        HandleMove(game, room.sessions[cur], payload);
      } else if t == ClientCastSkill {
        HandleCast(game, room.sessions[cur], payload);
      }
    }

    /**
     * A Login frame at the front of the session's buffer: `HandleLogin` on
     * it.  On success the session continues in the new slot with what
     * followed the frame; on failure it stays put with its buffer.
     */
    method LoginPacket(cur: int) returns (next: int, sent: seq<Send>)
      requires Valid() && 0 <= cur < MaxPlayers && Complete(room.sessions[cur].buffer)
      modifies room, room.sessions, game, game.players
      ensures Valid() && game.arena == old(game.arena) && game.state == old(game.state) && 0 <= next < MaxPlayers
      ensures (game.arena != null ==> game.arena.EntityList() == old(game.arena.EntityList()) && game.arena.SpellList() == old(game.arena.SpellList()))
      ensures var buf := old(room.sessions[cur].buffer);
        room.sessions[next].buffer == buf || room.sessions[next].buffer == buf[FrameSize(buf)..]
      ensures LoginHandled(cur, next, sent)
    {
      var buf := room.sessions[cur].buffer;
      var frame := buf[..FrameSize(buf)];
      ghost var ss := room.sessions[..];
      var status;
      next, status, sent := HandleLogin(cur, frame);
      if status == LoginOk {
        LoggedInSeat(ss, cur, DecodeLogin(frame[HeaderSize..]), old(room.nextToken), |frame|);
      }
    }

    /**
     * One turn of process_session_tcp_buffer's loop: the leading frame is
     * handled, then removed unless handling already changed the length of
     * the buffer.  The session's slot then holds what followed the frame,
     * or, when a Logout emptied it, nothing.
     */
    method Consume(cur: int) returns (next: int, sent: seq<Send>, ghost dropped: bool)
      requires Valid() && 0 <= cur < MaxPlayers && Complete(room.sessions[cur].buffer)
      modifies room, room.sessions, game, game.players, game.ArenaRepr()
      ensures Valid() && game.arena == old(game.arena) && 0 <= next < MaxPlayers
      ensures var buf := old(room.sessions[cur].buffer);
        && (!dropped ==> room.sessions[next].buffer == buf[FrameSize(buf)..])
        && (dropped ==> room.sessions[next].buffer == [] && DecodeHeader(buf).messageType == ClientLogout)
      ensures var buf := old(room.sessions[cur].buffer);
        && |room.sessions[next].buffer| < |buf|
        && (!dropped ==> Frames(buf) == [buf[..FrameSize(buf)]] + Frames(room.sessions[next].buffer)
                         && Rest(buf) == Rest(room.sessions[next].buffer))
        && (dropped ==> DecodeHeader(buf[..FrameSize(buf)]).messageType == ClientLogout)
    {
      var buf := room.sessions[cur].buffer;
      next, sent := HandlePacket(cur);
      dropped := Trim(next, buf);
    }

    /**
     * The removal step of process_session_tcp_buffer's loop for the frame
     * that started `buf`: unless handling it changed the length of the
     * session's buffer, the frame's bytes are dropped from its front.
     */
    method Trim(next: int, buf: seq<byte>) returns (ghost dropped: bool)
      requires Valid() && 0 <= next < MaxPlayers && Complete(buf)
      requires || room.sessions[next].buffer == buf
               || room.sessions[next].buffer == buf[FrameSize(buf)..]
               || (room.sessions[next].buffer == [] && DecodeHeader(buf).messageType == ClientLogout)
      modifies room.sessions
      ensures Valid()
      ensures !dropped ==> room.sessions[next].buffer == buf[FrameSize(buf)..]
      ensures dropped ==> room.sessions[next].buffer == [] && DecodeHeader(buf).messageType == ClientLogout
      ensures && |room.sessions[next].buffer| < |buf|
              && (!dropped ==> Frames(buf) == [buf[..FrameSize(buf)]] + Frames(room.sessions[next].buffer)
                               && Rest(buf) == Rest(room.sessions[next].buffer))
              && (dropped ==> DecodeHeader(buf[..FrameSize(buf)]).messageType == ClientLogout)
    {
      var tail := buf[FrameSize(buf)..];
      assert Frames(buf) == [buf[..FrameSize(buf)]] + Frames(tail) && Rest(buf) == Rest(tail);
      HeaderOfPrefix(buf, FrameSize(buf));
      var after := room.sessions[next].buffer;
      if |after| != |buf| {
        dropped := after != tail;
        return;
      }
      dropped := false;
      room.Update(next, room.sessions[next].(buffer := tail));
    }

    /**
     * process_session_tcp_buffer: while the session's buffer starts with a
     * whole frame, the frame is handled and removed, following the session
     * into its new slot after a Login.  The frames handled are the leading
     * `Frames` of the buffer, in order; either all of them were handled and
     * the buffer is left with their `Rest`, or the buffer was emptied by a
     * Logout, the last frame handled.  The sends are those of the frames'
     * handlers, in order.
     */
    method ProcessBuffer(cur: int) returns (next: int, sent: seq<Send>, ghost handled: seq<seq<byte>>)
      requires Valid() && 0 <= cur < MaxPlayers
      modifies room, room.sessions, game, game.players, game.ArenaRepr()
      ensures Valid() && game.arena == old(game.arena) && 0 <= next < MaxPlayers
      ensures HandledPrefix(old(room.sessions[cur].buffer), handled)
      ensures var orig := old(room.sessions[cur].buffer);
        || (handled == Frames(orig) && room.sessions[next].buffer == Rest(orig))
        || (room.sessions[next].buffer == [] && |handled| > 0 && DecodeHeader(handled[|handled| - 1]).messageType == ClientLogout)
    {
      ghost var orig := room.sessions[cur].buffer;
      ghost var dropped := false;
      next := cur;
      sent := [];
      handled := [];
      while Complete(room.sessions[next].buffer)
        invariant Valid() && game.arena == old(game.arena) && 0 <= next < MaxPlayers
        invariant Progress(orig, handled, dropped, room.sessions[next].buffer)
        decreases |room.sessions[next].buffer|
      {
        ghost var buf := room.sessions[next].buffer;
        var more;
        ghost var d;
        next, more, d := Consume(next);
        FrameHandled(orig, handled, dropped, buf, room.sessions[next].buffer, d);
        sent := sent + more;
        handled := handled + [buf[..FrameSize(buf)]];
        dropped := dropped || d;
      }
      RestIncomplete(room.sessions[next].buffer);
      Drained(orig, handled, dropped, room.sessions[next].buffer);
    }

    /**
     * The peer of a slot closed its socket or the read failed
     * (server/server.c:111-145): a logged-in session leaves as after a
     * Logout (`Leave`); a socket that never logged in is closed and its
     * buffer emptied.  Either way the slot ends inactive, without socket
     * and with an empty buffer.
     */
    method Disconnect(i: int) returns (sent: seq<Send>)
      requires Valid() && 0 <= i < MaxPlayers
      modifies room, room.sessions, game, game.players
      ensures Valid() && game.arena == old(game.arena) && game.state == old(game.state)
      ensures room.sessions[..] == old(room.sessions[..])[i := old(room.sessions[i]).(fd := Close(old(room.sessions[i].fd)), active := false, buffer := [])]
      ensures old(room.sessions[i].active) ==>
        && room.sessionCount == old(room.sessionCount) - 1
        && game.Roster() == Dropped(old(game.Roster()), old(room.sessions[i].symbol))
        && sent == Broadcasts(room.sessions[..], PlayersFrame(room.sessions[..]))
      ensures !old(room.sessions[i].active) ==>
        room.sessionCount == old(room.sessionCount) && game.Roster() == old(game.Roster()) && sent == []
    {
      if room.sessions[i].active {
        sent := Leave(i);
      } else {
        Hangup(i);
        sent := [];
      }
    }

    /**
     * One slot's turn in server_run (server/server.c:99-146).  A slot
     * without a socket, or whose buffer is full, reads nothing.  Bytes
     * read (at most the free space) are appended and the buffer processed
     * (`ProcessBuffer`); end-of-stream and a read error other than
     * EAGAIN/EWOULDBLOCK disconnect the slot (`Disconnect`); a read that
     * would block changes nothing.
     */
    method Receive(i: int, r: Recv) returns (sent: seq<Send>, ghost handled: seq<seq<byte>>, ghost next: int)
      requires Valid() && 0 <= i < MaxPlayers
      modifies room, room.sessions, game, game.players, game.ArenaRepr()
      ensures Valid() && game.arena == old(game.arena) && 0 <= next < MaxPlayers
      ensures var s := old(room.sessions[i]);
        s.fd < 0 || |s.buffer| >= TcpBufferSize || r == ReadError(true) ==>
          room.sessions[..] == old(room.sessions[..]) && game.Roster() == old(game.Roster()) && sent == [] && handled == []
      ensures var s := old(room.sessions[i]);
        s.fd >= 0 && |s.buffer| < TcpBufferSize && (r == EndOfStream || r == ReadError(false) || r == Bytes([])) ==>
          && room.sessions[..] == old(room.sessions[..])[i := s.(fd := Close(s.fd), active := false, buffer := [])] && handled == []
          && (s.active ==>
                && room.sessionCount == old(room.sessionCount) - 1
                && game.Roster() == Dropped(old(game.Roster()), s.symbol)
                && sent == Broadcasts(room.sessions[..], PlayersFrame(room.sessions[..])))
          && (!s.active ==> room.sessionCount == old(room.sessionCount) && game.Roster() == old(game.Roster()) && sent == [])
      ensures var s := old(room.sessions[i]);
        s.fd >= 0 && |s.buffer| < TcpBufferSize && r.Bytes? && r.data != [] ==>
          var space := TcpBufferSize - |s.buffer|;
          var orig := s.buffer + (if |r.data| > space then r.data[..space] else r.data);
          && HandledPrefix(orig, handled)
          && (|| (handled == Frames(orig) && room.sessions[next].buffer == Rest(orig))
              || (room.sessions[next].buffer == [] && |handled| > 0 && DecodeHeader(handled[|handled| - 1]).messageType == ClientLogout))
    {
      sent := [];
      handled := [];
      next := i;
      var s := room.sessions[i];
      if s.fd < 0 || |s.buffer| >= TcpBufferSize {
        return;
      }
      match r
      case Bytes(data) =>
        var space := TcpBufferSize - |s.buffer|;
        var got := if |data| > space then data[..space] else data;
        if |got| > 0 {
          sent, handled, next := Feed(i, got);
        } else {
          sent := Disconnect(i);
        }
      case EndOfStream =>
        sent := Disconnect(i);
      case ReadError(wouldBlock) =>
        if !wouldBlock {
          sent := Disconnect(i);
        }
    }

    /** Bytes read on a slot (server/server.c:106-109): appended to its buffer, which is then processed. */
    method Feed(i: int, got: seq<byte>) returns (sent: seq<Send>, ghost handled: seq<seq<byte>>, ghost next: int)
      requires Valid() && 0 <= i < MaxPlayers && |room.sessions[i].buffer| + |got| <= TcpBufferSize
      modifies room, room.sessions, game, game.players, game.ArenaRepr()
      ensures Valid() && game.arena == old(game.arena) && 0 <= next < MaxPlayers
      ensures var orig := old(room.sessions[i].buffer) + got;
        && HandledPrefix(orig, handled)
        && (|| (handled == Frames(orig) && room.sessions[next].buffer == Rest(orig))
            || (room.sessions[next].buffer == [] && |handled| > 0 && DecodeHeader(handled[|handled| - 1]).messageType == ClientLogout))
    {
      var s := room.sessions[i];
      room.Update(i, s.(buffer := s.buffer + got));
      next, sent, handled := ProcessBuffer(i);
    }

    /** server_destroy, without the listening sockets: every active session's socket closed, and the game's arena released. */
    method Destroy()
      requires Valid()
      modifies room, room.sessions, game, game.ArenaRepr()
      ensures Valid() && room.sessionCount == 0 && game.arena == null
      ensures forall k :: 0 <= k < MaxPlayers ==> !room.sessions[k].active
    {
      room.Destroy();
      game.Destroy();
    }

    /**
     * The success path of a Login command: the symbol's session takes the
     * first inactive slot with the sender's socket and the player joins the
     * game (see `Seat` for the room's side).  Returns the new slot and its
     * token.
     */
    method Admit(cur: int, symbol: char, frameLen: int) returns (next: int, token: int)
      requires Valid() && 0 <= cur < MaxPlayers && frameLen >= HeaderSize
      requires symbol !in ActiveSymbols(room.sessions[..]) && room.sessionCount < room.maxPlayers
      modifies room, room.sessions, game, game.players
      ensures Valid() && game.arena == old(game.arena) && game.state == old(game.state)
      ensures next == FirstSlot(old(room.sessions[..]), Vacant) && 0 <= next < MaxPlayers
      ensures token == old(room.nextToken) && room.nextToken == token + 1 && room.sessionCount == old(room.sessionCount) + 1
      ensures room.sessions[..] == LoggedIn(old(room.sessions[..]), cur, symbol, token, frameLen)
      ensures game.Roster() == Admitted(old(game.Roster()), symbol, game.maxPlayers)
    {
      ActiveSymbolsHeld(room.sessions[..], symbol);
      NotFullHasVacancy(room);
      next, token := Seat(cur, symbol, frameLen);
      var _ := game.AddPlayer(symbol);
    }

    /**
     * The room's side of a successful login (server/server.c:321-351):
     * room_session_add with the sender's socket, then the new session's
     * buffer becomes what followed the login frame in the sender's buffer,
     * and a different old slot loses its socket and its buffer.
     */
    method Seat(cur: int, symbol: char, frameLen: int) returns (next: int, token: int)
      requires room.Valid() && 0 <= cur < MaxPlayers && frameLen >= HeaderSize
      requires FirstSlot(room.sessions[..], BySymbol(symbol)) < 0 && room.sessionCount < room.maxPlayers
      requires FirstSlot(room.sessions[..], Vacant) >= 0
      modifies room, room.sessions
      ensures room.Valid()
      ensures next == FirstSlot(old(room.sessions[..]), Vacant)
      ensures token == old(room.nextToken) && room.nextToken == token + 1 && room.sessionCount == old(room.sessionCount) + 1
      ensures room.sessions[..] == LoggedIn(old(room.sessions[..]), cur, symbol, token, frameLen)
    {
      ghost var ss := room.sessions[..];
      ghost var k := FirstSlot(ss, Vacant);
      var saved := room.sessions[cur].buffer;
      var fd := room.sessions[cur].fd;
      var sender := room.sessions[cur];
      var rest := if |saved| > frameLen then saved[frameLen..] else [];
      token := room.Add(symbol, fd);
      assert room.sessions[..] == ss[k := Session(token, symbol, fd, NoAddress, false, true, [])];
      next := room.FindByToken(token);
      assert room.sessions[k].active && room.sessions[k].token == token;
      assert next == k;
      room.Update(next, Session(token, symbol, fd, NoAddress, false, true, rest));
      assert room.sessions[..] == ss[k := Session(token, symbol, fd, NoAddress, false, true, rest)];
      if next != cur {
        room.Update(cur, sender.(fd := ClosedFd, buffer := []));
      }
    }
  }
}
