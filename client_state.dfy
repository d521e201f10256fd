/**
 * The client's own state (client/state.h, client/state.c): where it is in
 * its life cycle, the connection settings, the two sockets, the TCP stream
 * buffer, what the server said about itself, and the last game step.
 *
 * The ClientState struct lives by value inside the client application, so
 * it is a datatype here; the functions that update it through its address return the
 * updated record, which the application stores back.  Sockets are
 * descriptors, -1 when closed; a record array with its count is the
 * sequence of its first count records.
 */
module ClientStates {
  import opened Protocol
  import opened Entities
  import opened Spells
  import opened Players

  /** ClientStateType */
  datatype StateType = MenuScreen | Connecting | Waiting | Playing | GameOver | Disconnected

  /** TCP_BUFFER_SIZE: room for two frames of the largest size. */
  const ClientBufferSize := 2 * MaxPacketSize
  /** The capacity of the host field, its NUL included. */
  const HostCapacity := 256
  const DefaultTcpPort := 3042
  const DefaultUdpPort := 3043
  const DefaultHost := "localhost"

  /** socket_close: an open descriptor becomes -1; a closed one stays as it is. */
  function CloseFd(fd: int): (r: int)
    ensures fd >= 0 ==> r == -1
    ensures fd < 0 ==> r == fd
  {
    if fd >= 0 then -1 else fd
  }

  /** ClientState */
  datatype ClientState = ClientState(
    state: StateType,
    host: seq<char>, tcpPort: int, udpPort: int, playerSymbol: char, sessionToken: int,
    tcpFd: int, udpFd: int, udpConnected: bool,
    buffer: seq<byte>,
    mapSize: int, winnerPoints: int, maxPlayers: int,
    players: seq<char>, playerCount: int, waitSeconds: int,
    entities: seq<EntityData>, spells: seq<SpellData>, playerData: seq<PlayerData>,
    winner: char, selectedSpellType: byte, lastDirection: int)

  /**
   * The shapes every ClientState keeps: descriptors are -1 or open, the
   * buffer and the record lists fit their arrays, eight symbol cells.
   */
  predicate WellFormed(r: ClientState)
  {
    && r.tcpFd >= -1 && r.udpFd >= -1
    && |r.buffer| <= ClientBufferSize
    && |r.players| == MaxPlayers && r.playerCount >= 0
    && |r.entities| <= MaxEntities && |r.spells| <= MaxSpells && |r.playerData| <= MaxPlayers
    && |r.host| < HostCapacity
  }

  /**
   * client_state_create: the menu, the default host and ports, symbol 'A',
   * no token, both sockets closed, an empty buffer, the default game
   * settings (map 20, 5 points to win, 4 players), nothing received yet,
   * the basic spell selected and the player looking down.
   */
  function Created(): (r: ClientState)
    ensures WellFormed(r)
    ensures r.state == MenuScreen && r.tcpFd == -1 && r.udpFd == -1 && r.buffer == []
  {
    ClientState(MenuScreen, DefaultHost, DefaultTcpPort, DefaultUdpPort, 'A', 0,
                 -1, -1, false, [], 20, 5, 4,
                 seq(MaxPlayers, _ => '\0'), 0, 0, [], [], [], '\0', 1, 2)
  }

  /**
   * client_state_reset: both sockets closed, the session forgotten (no
   * token, no UDP confirmation, no players, entities, spells or player
   * records, no winner, an empty buffer) and back to the menu.  The
   * settings, the symbol cells, the countdown, the selected spell and the
   * last direction are kept.
   */
  function ResetOf(r: ClientState): (s: ClientState)
    ensures WellFormed(r) ==> WellFormed(s)
    ensures r.tcpFd >= -1 && r.udpFd >= -1 ==> s.tcpFd == -1 && s.udpFd == -1
    ensures s.state == MenuScreen && !s.udpConnected && s.sessionToken == 0 && s.buffer == []
    ensures s.playerCount == 0 && s.entities == [] && s.spells == [] && s.playerData == [] && s.winner == '\0'
    ensures s.host == r.host && s.tcpPort == r.tcpPort && s.udpPort == r.udpPort && s.playerSymbol == r.playerSymbol
  {
    r.(tcpFd := CloseFd(r.tcpFd), udpFd := CloseFd(r.udpFd),
       udpConnected := false, sessionToken := 0, playerCount := 0,
       entities := [], spells := [], playerData := [], winner := '\0',
       buffer := [], state := MenuScreen)
  }

  /**
   * A reset state is a created one except for what a reset keeps: the
   * connection settings, the server's game settings, the symbol cells, the
   * countdown, the selected spell and the last direction.
   */
  lemma {:induction false} ResetIsCreatedWithSettings(r: ClientState)
    requires WellFormed(r)
    ensures var c := Created();
      ResetOf(r) == c.(host := r.host, tcpPort := r.tcpPort, udpPort := r.udpPort, playerSymbol := r.playerSymbol,
                       mapSize := r.mapSize, winnerPoints := r.winnerPoints, maxPlayers := r.maxPlayers,
                       players := r.players, waitSeconds := r.waitSeconds,
                       selectedSpellType := r.selectedSpellType, lastDirection := r.lastDirection)
  {
  }

  /** A reset keeps the shapes, and a second reset changes nothing. */
  lemma {:induction false} ResetIdempotent(r: ClientState)
    requires WellFormed(r)
    ensures WellFormed(ResetOf(r))
    ensures ResetOf(ResetOf(r)) == ResetOf(r)
  {
  }

  /** client_state_set: only the state changes. */
  function WithState(r: ClientState, state: StateType): (s: ClientState)
    ensures WellFormed(r) ==> WellFormed(s)
    ensures s.state == state
    ensures s.(state := r.state) == r
  {
    r.(state := state)
  }

  /** client_state_destroy: both sockets end closed, and nothing else changes. */
  function Destroyed(r: ClientState): (s: ClientState)
    ensures WellFormed(r) ==> WellFormed(s)
    ensures r.tcpFd >= -1 && r.udpFd >= -1 ==> s.tcpFd == -1 && s.udpFd == -1
    ensures s.(tcpFd := r.tcpFd, udpFd := r.udpFd) == r
  {
    r.(tcpFd := CloseFd(r.tcpFd), udpFd := CloseFd(r.udpFd))
  }

  /** Destroying a reset state changes nothing: a reset already closed both sockets. */
  lemma {:induction false} DestroyAfterReset(r: ClientState)
    requires WellFormed(r)
    ensures Destroyed(ResetOf(r)) == ResetOf(r)
  {
  }
}
