/**
 * The session room of the server (server/session.h, server/session.c): a
 * fixed table of MAX_PLAYERS session slots, a count of the active ones, the
 * room's player limit and the next token to issue.
 *
 * A slot is a value (`Session`); the room's methods write updated slots
 * back into the table.  A socket is its file descriptor, -1 when closed.
 * The bytes a slot's TCP buffer holds are `buffer` (the C array's first
 * tcp_buffer_len bytes).
 */
module Sessions {
  import opened Protocol
  import opened Players

  /** SESSION_TCP_BUFFER_SIZE: room for two maximal frames. */
  const TcpBufferSize := 2 * MaxPacketSize
  const ClosedFd := -1

  /** A UDP peer address (host and port); all zero until the client announces one. */
  datatype Address = Address(host: int, port: int)
  const NoAddress := Address(0, 0)

  datatype Session = Session(
    token: int, symbol: char, fd: int, udpAddr: Address,
    udpConnected: bool, active: bool, buffer: seq<byte>)

  /** socket_close: a valid descriptor becomes -1; an invalid one is left as it is. */
  function Close(fd: int): (r: int)
    ensures r < 0
    ensures fd < 0 ==> r == fd
  {
    if fd >= 0 then ClosedFd else fd
  }

  /** What the room's slot scans look for. */
  datatype Probe =
    | ByToken(token: int)      // an active slot with this token
    | BySymbol(symbol: char)   // an active slot with this symbol
    | BySocket(fd: int)        // an active slot on this socket
    | Vacant                   // an inactive slot
    | Parked                   // an inactive slot without a socket

  predicate Hits(s: Session, p: Probe)
  {
    match p
    case ByToken(t) => s.active && s.token == t
    case BySymbol(c) => s.active && s.symbol == c
    case BySocket(fd) => s.active && s.fd == fd
    case Vacant => !s.active
    case Parked => !s.active && s.fd < 0
  }

  /** The index of the first slot the probe hits, or -1 when none does. */
  function FirstSlot(ss: seq<Session>, p: Probe): (i: int)
    ensures -1 <= i < |ss|
    ensures i >= 0 ==> Hits(ss[i], p) && forall j :: 0 <= j < i ==> !Hits(ss[j], p)
    ensures i == -1 ==> forall j :: 0 <= j < |ss| ==> !Hits(ss[j], p)
  {
    if |ss| == 0 then -1
    else if Hits(ss[0], p) then 0
    else
      var r := FirstSlot(ss[1..], p);
      assert forall j :: 1 <= j < |ss| ==> ss[j] == ss[1..][j - 1];
      if r < 0 then -1 else r + 1
  }

  /** The number of active slots. */
  function ActiveCount(ss: seq<Session>): (n: nat)
    ensures n <= |ss|
  {
    if |ss| == 0 then 0
    else ActiveCount(ss[..|ss| - 1]) + (if ss[|ss| - 1].active then 1 else 0)
  }

  /** The symbols of the active slots, in slot order. */
  function ActiveSymbols(ss: seq<Session>): (r: seq<char>)
  {
    if |ss| == 0 then []
    else ActiveSymbols(ss[..|ss| - 1]) + (if ss[|ss| - 1].active then [ss[|ss| - 1].symbol] else [])
  }

  /** Replacing one slot changes the active count by the change in that slot's flag. */
  lemma {:induction false} ActiveCountReplace(ss: seq<Session>, k: int, s: Session)
    requires 0 <= k < |ss|
    ensures ActiveCount(ss[k := s]) ==
      ActiveCount(ss) - (if ss[k].active then 1 else 0) + (if s.active then 1 else 0)
  {
    var last := |ss| - 1;
    var t := ss[k := s];
    assert t[..last] == if k == last then ss[..last] else ss[..last][k := s];
    if k < last {
      ActiveCountReplace(ss[..last], k, s);
    }
  }

  /** Fewer active slots than slots: there is an inactive one. */
  lemma {:induction false} VacancyExists(ss: seq<Session>)
    requires ActiveCount(ss) < |ss|
    ensures FirstSlot(ss, Vacant) >= 0
  {
    var last := |ss| - 1;
    if ss[last].active {
      VacancyExists(ss[..last]);
      var i := FirstSlot(ss[..last], Vacant);
      assert !ss[i].active;
    } else {
      assert Hits(ss[last], Vacant);
    }
  }

  /** All slots inactive: none is counted. */
  lemma {:induction false} NoneActive(ss: seq<Session>)
    requires forall k :: 0 <= k < |ss| ==> !ss[k].active
    ensures ActiveCount(ss) == 0 && ActiveSymbols(ss) == []
  {
    if |ss| > 0 {
      NoneActive(ss[..|ss| - 1]);
    }
  }

  /** There is one listed symbol per active slot. */
  lemma {:induction false} ActiveSymbolsCount(ss: seq<Session>)
    ensures |ActiveSymbols(ss)| == ActiveCount(ss)
  {
    if |ss| > 0 {
      ActiveSymbolsCount(ss[..|ss| - 1]);
    }
  }

  /** A symbol is listed exactly when an active slot holds it. */
  lemma {:induction false} ActiveSymbolsHeld(ss: seq<Session>, c: char)
    ensures c in ActiveSymbols(ss) <==> FirstSlot(ss, BySymbol(c)) >= 0
  {
    if |ss| > 0 {
      var last := |ss| - 1;
      ActiveSymbolsHeld(ss[..last], c);
      var i := FirstSlot(ss[..last], BySymbol(c));
      if i >= 0 {
        assert Hits(ss[i], BySymbol(c));
      }
      if FirstSlot(ss, BySymbol(c)) >= 0 && i < 0 {
        assert Hits(ss[last], BySymbol(c));
      }
    }
  }

  /** Slots that keep their flags and symbols keep the count and the symbol list. */
  lemma {:induction false} SameFlagsSameLists(a: seq<Session>, b: seq<Session>)
    requires |a| == |b|
    requires forall k :: 0 <= k < |a| ==> a[k].active == b[k].active && a[k].symbol == b[k].symbol
    ensures ActiveCount(a) == ActiveCount(b) && ActiveSymbols(a) == ActiveSymbols(b)
  {
    if |a| > 0 {
      SameFlagsSameLists(a[..|a| - 1], b[..|b| - 1]);
    }
  }

  /**
   * The table after a successful login from slot cur: the first inactive
   * slot holds the new session, with the sender's socket and the bytes that
   * followed the frame of frameLen bytes in the sender's buffer; a
   * different sending slot is left without socket and buffer.
   */
  function LoggedIn(ss: seq<Session>, cur: int, symbol: char, token: int, frameLen: int): (r: seq<Session>)
    requires 0 <= cur < |ss| && FirstSlot(ss, Vacant) >= 0 && frameLen >= 0
    ensures |r| == |ss|
  {
    var k := FirstSlot(ss, Vacant);
    var saved := ss[cur].buffer;
    var seated := ss[k := Session(token, symbol, ss[cur].fd, NoAddress, false, true,
                                  if |saved| > frameLen then saved[frameLen..] else [])];
    if k != cur then seated[cur := ss[cur].(fd := ClosedFd, buffer := [])] else seated
  }

  /** After a login, the new slot is the active session of the token, holding what followed the login frame. */
  lemma {:induction false} LoggedInSeat(ss: seq<Session>, cur: int, symbol: char, token: int, frameLen: int)
    requires 0 <= cur < |ss| && FirstSlot(ss, Vacant) >= 0 && 0 <= frameLen <= |ss[cur].buffer|
    ensures var k := FirstSlot(ss, Vacant);
      && LoggedIn(ss, cur, symbol, token, frameLen)[k] == Session(token, symbol, ss[cur].fd, NoAddress, false, true, ss[cur].buffer[frameLen..])
  {
    var k := FirstSlot(ss, Vacant);
    assert k != cur ==> LoggedIn(ss, cur, symbol, token, frameLen)[k] == ss[k := Session(token, symbol, ss[cur].fd, NoAddress, false, true, if |ss[cur].buffer| > frameLen then ss[cur].buffer[frameLen..] else [])][k];
  }

  class Room {
    const sessions: array<Session>
    const maxPlayers: int
    var sessionCount: int
    var nextToken: int

    /**
     * The room's invariant: the count is the number of active slots, every
     * active slot holds a token issued before next_token, no two active
     * slots share a token, and no buffer exceeds its capacity.
     */
    ghost predicate Valid()
      reads this, sessions
    {
      && sessions.Length == MaxPlayers
      && sessionCount == ActiveCount(sessions[..])
      && nextToken >= 1
      && (forall k :: 0 <= k < MaxPlayers && sessions[k].active ==> 1 <= sessions[k].token < nextToken)
      && (forall j, k :: 0 <= j < k < MaxPlayers && sessions[j].active && sessions[k].active ==>
            sessions[j].token != sessions[k].token)
      && (forall k :: 0 <= k < MaxPlayers ==> |sessions[k].buffer| <= TcpBufferSize)
    }

    /** room_session_create: every slot inactive with no socket and an empty buffer, no sessions, next token 1. */
    constructor (maxPlayers: int)
      ensures Valid() && fresh(sessions)
      ensures this.maxPlayers == maxPlayers && sessionCount == 0 && nextToken == 1
      ensures forall k :: 0 <= k < MaxPlayers ==>
        !sessions[k].active && sessions[k].fd == ClosedFd && sessions[k].buffer == []
    {
      this.maxPlayers := maxPlayers;
      sessionCount := 0;
      nextToken := 1;
      sessions := new Session[MaxPlayers](_ => Session(0, '\0', ClosedFd, NoAddress, false, false, []));
      new;
      NoneActive(sessions[..]);
    }

    /** room_session_is_full */
    function IsFull(): (full: bool)
      reads this, sessions
      requires Valid()
      ensures full <==> ActiveCount(sessions[..]) >= maxPlayers
    {
      sessionCount >= maxPlayers
    }

    /** The scan shared by the find_by_* lookups and the free-slot searches. */
    method Find(p: Probe) returns (i: int)
      requires sessions.Length == MaxPlayers
      ensures i == FirstSlot(sessions[..], p)
    {
      i := 0;
      while i < MaxPlayers
        invariant 0 <= i <= MaxPlayers
        invariant forall j :: 0 <= j < i ==> !Hits(sessions[j], p)
      {
        if Hits(sessions[i], p) {
          return;
        }
        i := i + 1;
      }
      i := -1;
    }

    /** room_session_find_by_token: the slot of the active session with this token, or -1. */
    method FindByToken(token: int) returns (i: int)
      requires Valid()
      ensures -1 <= i < MaxPlayers
      ensures i >= 0 <==> exists k :: 0 <= k < MaxPlayers && sessions[k].active && sessions[k].token == token
      ensures i >= 0 ==> sessions[i].active && sessions[i].token == token
    {
      i := Find(ByToken(token));
      if i < 0 {
        assert forall k :: 0 <= k < MaxPlayers ==> !Hits(sessions[..][k], ByToken(token));
      }
    }

    /** room_session_find_by_symbol: the first active slot holding this symbol, or -1. */
    method FindBySymbol(symbol: char) returns (i: int)
      requires Valid()
      ensures i == FirstSlot(sessions[..], BySymbol(symbol))
      ensures i >= 0 <==> symbol in ActiveSymbols(sessions[..])
    {
      i := Find(BySymbol(symbol));
      ActiveSymbolsHeld(sessions[..], symbol);
    }

    /** room_session_find_by_socket: the first active slot on this socket, or -1. */
    method FindBySocket(fd: int) returns (i: int)
      requires Valid()
      ensures -1 <= i < MaxPlayers
      ensures i >= 0 ==> sessions[i].active && sessions[i].fd == fd
      ensures i < 0 ==> forall k :: 0 <= k < MaxPlayers ==> !(sessions[k].active && sessions[k].fd == fd)
    {
      i := Find(BySocket(fd));
      if i < 0 {
        assert forall k :: 0 <= k < MaxPlayers ==> !Hits(sessions[..][k], BySocket(fd));
      }
    }

    /**
     * room_session_add: -1 and no change when the room is full or an active
     * session holds the symbol (or, which the invariant rules out for a
     * limit of at most MAX_PLAYERS, no slot is inactive).  Otherwise the
     * FIRST inactive slot, whatever socket it holds, becomes an active
     * session with the next token, the given socket, no UDP peer and an
     * empty buffer; the token is returned.
     */
    method Add(symbol: char, fd: int) returns (token: int)
      requires Valid()
      modifies this, sessions
      ensures Valid()
      ensures old(sessionCount >= maxPlayers || FirstSlot(sessions[..], BySymbol(symbol)) >= 0
                  || FirstSlot(sessions[..], Vacant) < 0) ==>
        && token == -1 && sessions[..] == old(sessions[..])
        && sessionCount == old(sessionCount) && nextToken == old(nextToken)
      ensures old(sessionCount < maxPlayers && FirstSlot(sessions[..], BySymbol(symbol)) < 0
                  && FirstSlot(sessions[..], Vacant) >= 0) ==>
        && token == old(nextToken) && nextToken == old(nextToken) + 1
        && sessionCount == old(sessionCount) + 1
        && sessions[..] == old(sessions[..])[old(FirstSlot(sessions[..], Vacant)) :=
             Session(token, symbol, fd, NoAddress, false, true, [])]
    {
      if IsFull() {
        return -1;
      }
      var held := FindBySymbol(symbol);
      if held >= 0 {
        return -1;
      }
      var i := Find(Vacant);
      if i < 0 {
        return -1;
      }
      token := Activate(i, symbol, fd);
    }

    /** The success path of room_session_add: slot i becomes a fresh session holding the next token. */
    method Activate(i: int, symbol: char, fd: int) returns (token: int)
      requires Valid() && 0 <= i < MaxPlayers && !sessions[i].active
      modifies this, sessions
      ensures Valid()
      ensures token == old(nextToken) && nextToken == old(nextToken) + 1
      ensures sessionCount == old(sessionCount) + 1
      ensures sessions[..] == old(sessions[..])[i := Session(token, symbol, fd, NoAddress, false, true, [])]
    {
      ghost var before := sessions[..];
      token := nextToken;
      nextToken := nextToken + 1;
      sessions[i] := Session(token, symbol, fd, NoAddress, false, true, []);
      sessionCount := sessionCount + 1;
      assert sessions[..] == before[i := sessions[i]];
      ActiveCountReplace(before, i, sessions[i]);
    }

    /**
     * room_session_remove: an unknown token changes nothing; otherwise the
     * session's slot becomes inactive with its socket closed and its buffer
     * emptied, and the count drops by one.
     */
    method Remove(token: int)
      requires Valid()
      modifies this, sessions
      ensures Valid() && nextToken == old(nextToken)
      ensures old(FirstSlot(sessions[..], ByToken(token))) < 0 ==>
        sessions[..] == old(sessions[..]) && sessionCount == old(sessionCount)
      ensures old(FirstSlot(sessions[..], ByToken(token))) >= 0 ==>
        var k := old(FirstSlot(sessions[..], ByToken(token)));
        && sessionCount == old(sessionCount) - 1
        && sessions[..] == old(sessions[..])[k := old(sessions[k]).(fd := Close(old(sessions[k].fd)), active := false, buffer := [])]
    {
      var i := Find(ByToken(token));
      if i >= 0 {
        ghost var before := sessions[..];
        var s := sessions[i];
        sessions[i] := s.(fd := Close(s.fd), active := false, buffer := []);
        sessionCount := sessionCount - 1;
        assert sessions[..] == before[i := sessions[i]];
        ActiveCountReplace(before, i, sessions[i]);
      }
    }

    /**
     * A write of the server into one slot that keeps its flag, token and
     * symbol: a parked socket, a buffer, a UDP peer.
     */
    method Update(k: int, s: Session)
      requires Valid() && 0 <= k < MaxPlayers
      requires s.active == sessions[k].active && s.token == sessions[k].token && s.symbol == sessions[k].symbol
      requires |s.buffer| <= TcpBufferSize
      modifies sessions
      ensures Valid() && sessions[..] == old(sessions[..])[k := s]
      ensures ActiveSymbols(sessions[..]) == ActiveSymbols(old(sessions[..]))
    {
      ghost var before := sessions[..];
      sessions[k] := s;
      assert sessions[..] == before[k := s];
      SameFlagsSameLists(before, sessions[..]);
    }

    /** room_session_get_symbols: the active sessions' symbols in slot order, and how many there are. */
    method GetSymbols() returns (symbols: seq<char>, count: int)
      requires Valid()
      ensures symbols == ActiveSymbols(sessions[..])
      ensures count == |symbols| == sessionCount
    {
      symbols := [];
      count := 0;
      var i := 0;
      while i < MaxPlayers
        invariant 0 <= i <= MaxPlayers
        invariant symbols == ActiveSymbols(sessions[..i]) && count == |symbols|
      {
        assert sessions[..i + 1][..i] == sessions[..i];
        if sessions[i].active {
          symbols := symbols + [sessions[i].symbol];
          count := count + 1;
        }
        i := i + 1;
      }
      assert sessions[..MaxPlayers] == sessions[..];
      ActiveSymbolsCount(sessions[..]);
    }

    /**
     * room_session_destroy: every active session's socket is closed and the
     * slot made inactive (its buffer is left as it is); the count becomes 0.
     */
    method Destroy()
      requires Valid()
      modifies this, sessions
      ensures Valid() && sessionCount == 0 && nextToken == old(nextToken)
      ensures forall k :: 0 <= k < MaxPlayers ==>
        sessions[k] == if old(sessions[k].active) then old(sessions[k]).(fd := Close(old(sessions[k].fd)), active := false)
                       else old(sessions[k])
    {
      var i := 0;
      while i < MaxPlayers
        invariant 0 <= i <= MaxPlayers && nextToken == old(nextToken)
        invariant forall k :: 0 <= k < i ==> !sessions[k].active
        invariant forall k :: 0 <= k < i ==>
          sessions[k] == if old(sessions[k].active) then old(sessions[k]).(fd := Close(old(sessions[k].fd)), active := false)
                         else old(sessions[k])
        invariant forall k :: i <= k < MaxPlayers ==> sessions[k] == old(sessions[k])
      {
        if sessions[i].active {
          sessions[i] := sessions[i].(fd := Close(sessions[i].fd), active := false);
        }
        i := i + 1;
      }
      sessionCount := 0;
      NoneActive(sessions[..]);
      assert forall k :: 0 <= k < MaxPlayers ==> sessions[k].buffer == old(sessions[k].buffer);
    }
  }

  /** Under the room's invariant a token names at most one active slot: the lookup finds that one. */
  lemma {:induction false} TokenNamesOneSlot(r: Room, k: int)
    requires r.Valid() && 0 <= k < MaxPlayers && r.sessions[k].active
    ensures FirstSlot(r.sessions[..], ByToken(r.sessions[k].token)) == k
  {
    assert Hits(r.sessions[..][k], ByToken(r.sessions[k].token));
  }

  /** With a limit of at most MAX_PLAYERS, a room that is not full has an inactive slot, so add can only refuse a full room or a held symbol. */
  lemma {:induction false} NotFullHasVacancy(r: Room)
    requires r.Valid() && r.maxPlayers <= MaxPlayers && !r.IsFull()
    ensures FirstSlot(r.sessions[..], Vacant) >= 0
  {
    VacancyExists(r.sessions[..]);
  }
}
