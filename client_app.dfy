/**
 * The client application (client/app.h, client/app.c): the client's state,
 * its menu and its arena view together; the handling of every server
 * message; the cutting of the TCP stream into frames; the parsing of the
 * server address the player types; and the frames the client sends back.
 *
 * What a message does to the client's state and which frames it sends in
 * reply are functions of the state and the frame (`StateAfter`,
 * `SendsFor`); the application's methods are proved to follow them while
 * they update the menu and the arena view in place.  Sockets are
 * descriptors (-1 when closed); a send is recorded as a value, and a send
 * on a closed descriptor sends nothing, as send(2) on -1 does.
 */
module ClientApps {
  import opened Util
  import opened Protocol
  import opened Encoder
  import opened Framing
  import opened ClientStates
  import opened ArenaViews
  import opened Entities
  import opened Spells
  import opened Players
  import Menus
  import Input
  import Directions

  datatype Option<T> = None | Some(value: T)

  /** A frame the client sends: over its TCP socket, or as a UDP datagram to the server's UDP port. */
  datatype ClientSend = TcpOut(bytes: seq<byte>) | UdpOut(port: int, bytes: seq<byte>)

  /** The outcome of one read from the TCP socket. */
  datatype Received =
    | Data(bytes: seq<byte>)        // n > 0 bytes arrived
    | Closed                        // n == 0: the server closed the connection
    | Failed(wouldBlock: bool)      // n < 0, with errno EAGAIN/EWOULDBLOCK or not

  /** socket_send_all on the TCP descriptor: nothing leaves a closed socket. */
  function TcpSends(fd: int, bytes: seq<byte>): (r: seq<ClientSend>)
    ensures |r| == (if fd >= 0 then 1 else 0)
    ensures forall k :: 0 <= k < |r| ==> r[k] == TcpOut(bytes)
  {
    if fd >= 0 then [TcpOut(bytes)] else []
  }

  // ---------------------------------------------------------------------
  // The server address
  // ---------------------------------------------------------------------

  /** The capacity of a typed or default server address, its NUL included. */
  const AddressCapacity := 64
  /** The largest TCP or UDP port. */
  const MaxPort := 65535

  /** strrchr: the index of the last c in s, or -1. */
  function LastIndexOf(s: seq<char>, c: char): (i: int)
    ensures -1 <= i < |s|
    ensures i >= 0 ==> s[i] == c && c !in s[i + 1..]
    ensures i < 0 <==> c !in s
  {
    if |s| == 0 then -1
    else if s[|s| - 1] == c then |s| - 1
    else
      var i := LastIndexOf(s[..|s| - 1], c);
      assert s == s[..|s| - 1] + [s[|s| - 1]];
      i
  }

  /** isspace in the C locale: space, and tab, newline, vertical tab, form feed and carriage return (codes 9 to 13). */
  predicate IsSpace(c: char)
  {
    c == ' ' || '\t' <= c <= '\r'
  }

  predicate IsDigit(c: char)
  {
    '0' <= c <= '9'
  }

  /** The number of white-space characters that start s. */
  function LeadingSpaces(s: seq<char>): (n: int)
    ensures 0 <= n <= |s|
    ensures forall k :: 0 <= k < n ==> IsSpace(s[k])
    ensures n < |s| ==> !IsSpace(s[n])
  {
    if |s| == 0 || !IsSpace(s[0]) then 0 else 1 + LeadingSpaces(s[1..])
  }

  /** The number of digits that start s. */
  function DigitRun(s: seq<char>): (n: int)
    ensures 0 <= n <= |s|
    ensures forall k :: 0 <= k < n ==> IsDigit(s[k])
    ensures n < |s| ==> !IsDigit(s[n])
  {
    if |s| == 0 || !IsDigit(s[0]) then 0 else 1 + DigitRun(s[1..])
  }

  /** The value of a run of decimal digits, the last one counting units. */
  function Value(d: seq<char>): (v: nat)
  {
    if |d| == 0 then 0
    else
      var last := d[|d| - 1] as int - '0' as int;
      10 * Value(d[..|d| - 1]) + (if 0 <= last <= 9 then last else 0)
  }

  /**
   * atoi: white space is skipped, then an optional sign, then the longest
   * run of digits; no digits give 0.
   */
  function Atoi(s: seq<char>): (n: int)
    ensures n < 0 ==> '-' in s
    ensures |s| > 0 && !IsSpace(s[0]) && !IsDigit(s[0]) && s[0] != '-' && s[0] != '+' ==> n == 0
  {
    var t := s[LeadingSpaces(s)..];
    if |t| > 0 && (t[0] == '-' || t[0] == '+') then
      var v: int := Value(t[1..][..DigitRun(t[1..])]);
      if t[0] == '-' then -v else v
    else
      Value(t[..DigitRun(t)])
  }

  /** The digit character for 0..9. */
  function DigitChar(d: int): (c: char)
    requires 0 <= d <= 9
    ensures IsDigit(c) && c as int - '0' as int == d
  {
    ('0' as int + d) as char
  }

  /** printf's %d of a natural number. */
  function Decimal(n: nat): (r: seq<char>)
    ensures |r| >= 1 && forall k :: 0 <= k < |r| ==> IsDigit(r[k])
    ensures Value(r) == n
  {
    if n < 10 then [DigitChar(n)]
    else
      var front := Decimal(n / 10);
      var r := front + [DigitChar(n % 10)];
      assert r[..|r| - 1] == front;
      r
  }

  /** atoi reads a decimal back. */
  lemma {:induction false} AtoiDecimal(n: nat)
    ensures Atoi(Decimal(n)) == n
  {
    var d := Decimal(n);
    assert !IsSpace(d[0]) && d[0] != '-' && d[0] != '+';
    assert d[LeadingSpaces(d)..] == d;
    assert DigitRun(d) == |d|;
    assert d[..|d|] == d;
  }

  /**
   * parse_server_addr: the address is cut at its last ':'; what precedes
   * it is the host (at most 255 characters) and atoi of what follows it
   * the port, which becomes 3042 unless it lies in 1..65535.  Without a
   * ':', the whole address is the host and the port is 3042.
   */
  function ParseServerAddr(addr: seq<char>): (r: (seq<char>, int))
    ensures |r.0| < HostCapacity && '\0' !in r.0
    ensures 1 <= r.1 <= MaxPort
    ensures ':' !in CStr(addr) ==> r == (CStr(addr)[..Min(|CStr(addr)|, HostCapacity - 1)], DefaultTcpPort)
  {
    SplitAddress(CStr(addr))
  }

  /** parse_server_addr on the text of the address. */
  function SplitAddress(text: seq<char>): (r: (seq<char>, int))
    requires '\0' !in text
    ensures |r.0| < HostCapacity && '\0' !in r.0
    ensures 1 <= r.1 <= MaxPort
    ensures ':' !in text ==> r == (text[..Min(|text|, HostCapacity - 1)], DefaultTcpPort)
  {
    var i := LastIndexOf(text, ':');
    if i < 0 then
      (text[..Min(|text|, HostCapacity - 1)], DefaultTcpPort)
    else
      var port := Atoi(text[i + 1..]);
      (text[..Min(i, HostCapacity - 1)], if port <= 0 || port > MaxPort then DefaultTcpPort else port)
  }

  /** snprintf(default_addr, 64, "%s:%d", host, port): the text, cut to 63 characters. */
  function FormatAddr(host: seq<char>, port: nat): (r: seq<char>)
    ensures |r| < AddressCapacity && '\0' !in r
  {
    var text := CStr(host) + [':'] + Decimal(port);
    SeparatedText(CStr(host), Decimal(port));
    text[..Min(|text|, AddressCapacity - 1)]
  }

  /**
   * An address the client formats for a host and a port parses back to
   * that host and port, whenever it fits the field: the port holds no ':',
   * so the last ':' is the one the formatting put there.
   */
  lemma {:induction false} ParseFormatRoundTrip(host: seq<char>, port: int)
    requires 1 <= port <= MaxPort
    requires |CStr(host)| + 1 + |Decimal(port)| < AddressCapacity
    ensures ParseServerAddr(FormatAddr(host, port)).0 == CStr(host) && ParseServerAddr(FormatAddr(host, port)).1 == port
  {
    var h := CStr(host);
    var d := Decimal(port);
    var text := h + [':'] + d;
    assert FormatAddr(host, port) == text;
    SeparatedText(h, d);
    CStrNoNul(text);
    AtoiDecimal(port);
    ParseSeparated(h, d);
  }

  /** A host of fewer than 256 characters, a ':' and a run of digits parse to the host and the digits' value, if a port. */
  lemma {:induction false} ParseSeparated(h: seq<char>, d: seq<char>)
    requires '\0' !in h && |h| < HostCapacity
    requires forall k :: 0 <= k < |d| ==> IsDigit(d[k])
    requires 1 <= Atoi(d) <= MaxPort
    ensures SplitAddress(h + [':'] + d).0 == h && SplitAddress(h + [':'] + d).1 == Atoi(d)
  {
    var text := h + [':'] + d;
    SeparatedText(h, d);
    assert text[|h| + 1..] == d;
    assert Min(|h|, HostCapacity - 1) == |h|;
    assert text[..|h|] == h;
  }

  /**
   * A host, a ':' and a run of digits: the text holds no NUL when the host
   * holds none, and its last ':' is the separator.
   */
  lemma {:induction false} SeparatedText(h: seq<char>, d: seq<char>)
    requires '\0' !in h
    requires forall k :: 0 <= k < |d| ==> IsDigit(d[k])
    ensures '\0' !in h + [':'] + d
    ensures LastIndexOf(h + [':'] + d, ':') == |h|
  {
    var text := h + [':'] + d;
    forall k | 0 <= k < |text| ensures text[k] != '\0' && (k > |h| ==> text[k] != ':') {
      if k < |h| { assert text[k] == h[k]; }
      else if k > |h| { assert text[k] == d[k - |h| - 1]; }
    }
    assert text[|h|] == ':';
  }

  /** A string without NUL is its own C string. */
  lemma {:induction false} CStrNoNul(s: seq<char>)
    requires '\0' !in s
    ensures CStr(s) == s
  {
  }

  // ---------------------------------------------------------------------
  // What each server message does to the client's state
  // ---------------------------------------------------------------------

  /** The longest version text handle_single_packet keeps (its buffer holds 33 bytes). */
  const VersionBufferSize := 33

  /** The version text and compatibility byte of a SERVER_MSG_VERSION payload. */
  function VersionReply(payload: seq<byte>): (r: (seq<char>, int))
    ensures |r.0| < VersionBufferSize && 0 <= r.1 < 256
    ensures At(payload, 0) < VersionBufferSize ==> |r.0| == At(payload, 0)
  {
    var (text, used) := DecodeVersion(payload, VersionBufferSize);
    (text, At(payload, used))
  }

  /** The menu's login status for the status byte of a SERVER_MSG_LOGIN_STATUS; None leaves it alone. */
  function LoginStatusFor(status: byte): (r: Option<Menus.LoginStatusType>)
    ensures r == Some(Menus.Logged) <==> status == LoginOk
    ensures r.Some? <==> status <= LoginRoomFull
    ensures r.Some? ==> r.value != Menus.NotLogged
  {
    if status == LoginOk then Some(Menus.Logged)
    else if status == LoginInvalidChar then Some(Menus.InvalidName)
    else if status == LoginAlreadyUsed then Some(Menus.NameTaken)
    else if status == LoginRoomFull then Some(Menus.PlayerLimit)
    else None
  }

  /**
   * The symbol cells after a SERVER_MSG_DYNAMIC_INFO: the first
   * Min(count, 8) cells take the payload's symbols, the others keep theirs.
   */
  function SymbolsAfter(players: seq<char>, payload: seq<byte>): (r: seq<char>)
    ensures |r| == |players|
    ensures forall i :: 0 <= i < |r| ==>
      r[i] == if i < Min(At(payload, 0), MaxPlayers) then CharOf(At(payload, 1 + i)) else players[i]
  {
    var count := Min(At(payload, 0), MaxPlayers);
    seq(|players|, i requires 0 <= i < |players| => if i < count then CharOf(At(payload, 1 + i)) else players[i])
  }

  /** The symbol of the first entity still alive, or NUL. */
  function Survivor(ents: seq<EntityData>): (c: char)
    ensures c != '\0' ==> exists i :: 0 <= i < |ents| && ents[i].health > 0 && c == CharOf(ents[i].symbol)
    ensures (forall i :: 0 <= i < |ents| ==> ents[i].health == 0) ==> c == '\0'
  {
    if |ents| == 0 then '\0'
    else if ents[0].health > 0 then CharOf(ents[0].symbol)
    else
      var c := Survivor(ents[1..]);
      assert forall i :: 0 <= i < |ents| - 1 ==> ents[1..][i] == ents[i + 1];
      c
  }

  /**
   * handle_single_packet on the client's state: what each message type
   * changes.  A frame shorter than a header, and a message type the client
   * does not handle, change nothing.  udpSocket is the descriptor
   * socket_udp_create returns when the login succeeds.
   */
  function StateAfter(s: ClientState, frame: seq<byte>, udpSocket: int): (r: ClientState)
    ensures WellFormed(s) && udpSocket >= -1 ==> WellFormed(r)
    ensures r.buffer == s.buffer && r.host == s.host && r.tcpPort == s.tcpPort && r.tcpFd == s.tcpFd
    ensures r.playerSymbol == s.playerSymbol && r.lastDirection == s.lastDirection && r.selectedSpellType == s.selectedSpellType
    ensures |frame| < HeaderSize ==> r == s
    ensures !IsGameStep(frame) ==> r.entities == s.entities && r.spells == s.spells && r.playerData == s.playerData
  {
    if |frame| < HeaderSize then s
    else
      var h := DecodeHeader(frame);
      var p := frame[HeaderSize..];
      if h.messageType == ServerStaticInfo then AfterStaticInfo(s, p)
      else if h.messageType == ServerDynamicInfo then AfterDynamicInfo(s, p)
      else if h.messageType == ServerLoginStatus then AfterLoginStatus(s, p, udpSocket)
      else if h.messageType == ServerUdpConnected then s.(udpConnected := true)
      else if h.messageType == ServerStartGame then WithState(s, Playing)
      else if h.messageType == ServerFinishGame then AfterFinishGame(s, p)
      else if h.messageType == ServerWaitArena then s.(waitSeconds := ReadU16(p, 0))
      else if h.messageType == ServerGameStep then AfterGameStep(s, p, h.dataLength)
      else s
  }

  /** The frame is a whole SERVER_MSG_GAME_STEP header or more. */
  predicate IsGameStep(frame: seq<byte>)
  {
    |frame| >= HeaderSize && DecodeHeader(frame).messageType == ServerGameStep
  }

  /** SERVER_MSG_STATIC_INFO: the server's UDP port and game settings, then back to the menu. */
  function AfterStaticInfo(s: ClientState, p: seq<byte>): (t: ClientState)
    ensures IsUint16(t.udpPort) && IsUint16(t.mapSize) && IsUint16(t.winnerPoints) && IsUint16(t.maxPlayers)
    ensures U16(t.udpPort) + U16(t.mapSize) + U16(t.winnerPoints) + U16(t.maxPlayers) == Slice(p, 0, 8)
    ensures t == s.(udpPort := t.udpPort, mapSize := t.mapSize, winnerPoints := t.winnerPoints, maxPlayers := t.maxPlayers, state := MenuScreen)
  {
    var info := DecodeStaticInfo(p);
    s.(udpPort := info.0, mapSize := info.1, winnerPoints := info.2, maxPlayers := info.3, state := MenuScreen)
  }

  /** SERVER_MSG_DYNAMIC_INFO: the player count as sent, and the symbols that fit. */
  function AfterDynamicInfo(s: ClientState, p: seq<byte>): (t: ClientState)
    ensures 0 <= t.playerCount < 256 && |t.players| == |s.players|
    ensures |p| > 0 ==> t.playerCount == p[0] as int
    ensures t == s.(playerCount := t.playerCount, players := t.players)
  {
    s.(playerCount := At(p, 0), players := SymbolsAfter(s.players, p))
  }

  /** SERVER_MSG_LOGIN_STATUS: the token is kept whatever the status; a success also opens the UDP socket and waits. */
  function AfterLoginStatus(s: ClientState, p: seq<byte>, udpSocket: int): (t: ClientState)
    ensures IsInt32(t.sessionToken)
    ensures DecodeLoginStatus(p).1 == LoginOk ==> t == s.(sessionToken := t.sessionToken, state := Waiting, udpFd := udpSocket)
    ensures DecodeLoginStatus(p).1 != LoginOk ==> t == s.(sessionToken := t.sessionToken)
  {
    var reply := DecodeLoginStatus(p);
    if reply.1 == LoginOk then s.(sessionToken := reply.2, state := Waiting, udpFd := udpSocket)
    else s.(sessionToken := reply.2)
  }

  /** SERVER_MSG_FINISH_GAME: the winner's symbol, and the game is over. */
  function AfterFinishGame(s: ClientState, p: seq<byte>): (t: ClientState)
    ensures (t.winner as int) < 256 && t == s.(winner := t.winner, state := GameOver)
    ensures |p| > 0 ==> t.winner == CharOf(p[0])
  {
    s.(winner := CharOf(At(p, 0)), state := GameOver)
  }

  /** SERVER_MSG_GAME_STEP: the records the client's arrays can hold. */
  function AfterGameStep(s: ClientState, p: seq<byte>, len: int): (t: ClientState)
    ensures |t.entities| <= MaxEntities && |t.spells| <= MaxSpells && |t.playerData| <= MaxPlayers
    ensures t == s.(entities := t.entities, spells := t.spells, playerData := t.playerData)
  {
    var d := DecodeGameStepCapped(p, len);
    s.(entities := d.entities, spells := d.spells, playerData := d.players)
  }

  /**
   * The frames handle_single_packet sends in reply: a subscription to the
   * server's information after its version, the session token over UDP to
   * the server's UDP port after a successful login (when the new UDP
   * socket opened), and the trust confirmation after the UDP handshake.
   */
  function SendsFor(tcpFd: int, udpPort: int, frame: seq<byte>, udpSocket: int): (r: seq<ClientSend>)
    ensures |r| <= 1
    ensures |frame| < HeaderSize ==> r == []
  {
    if |frame| < HeaderSize then []
    else
      var t := DecodeHeader(frame).messageType;
      if t == ServerVersion then TcpSends(tcpFd, SubscribeInfoFrame)
      else if t == ServerLoginStatus then UdpHandshake(udpPort, frame[HeaderSize..], udpSocket)
      else if t == ServerUdpConnected then TcpSends(tcpFd, TrustUdpFrame)
      else []
  }

  /** A game step changes only the three record lists and the fields synced from them, and sends nothing. */
  lemma {:induction false} GameStepOutcome(s: ClientState, m: Menus.MenuStatus, v: ViewInfo, frame: seq<byte>, udpSocket: int)
    requires |m.loggedPlayers| == Menus.MaxWaitingRoomPlayers && WellFormed(s)
    requires |frame| >= HeaderSize && DecodeHeader(frame).messageType == ServerGameStep
    ensures var t := AfterGameStep(s, frame[HeaderSize..], DecodeHeader(frame).dataLength);
      && StateAfter(s, frame, udpSocket) == t
      && SendsFor(s.tcpFd, s.udpPort, frame, udpSocket) == []
      && MenuAfter(m, s, frame) == m
      && ViewAfter(v, s, frame) == SyncedInfo(v, t)
  { }

  /** After a successful login, the token goes to the server's UDP port over the new UDP socket, if it opened. */
  function UdpHandshake(udpPort: int, payload: seq<byte>, udpSocket: int): (r: seq<ClientSend>)
    ensures |r| <= 1
    ensures r != [] <==> DecodeLoginStatus(payload).1 == LoginOk && udpSocket >= 0
  {
    var reply := DecodeLoginStatus(payload);
    if reply.1 == LoginOk && udpSocket >= 0 then [UdpOut(udpPort, EncodeConnectUdp(reply.2))] else []
  }

  /** The two frames the client answers with over TCP, both a bare header. */
  const SubscribeInfoFrame: seq<byte> := [ClientSubscribeInfo, 0, 0]
  const TrustUdpFrame: seq<byte> := [ClientTrustUdp, 0, 0]
  /** The frame client_app_disconnect sends before closing. */
  const LogoutFrame: seq<byte> := [ClientLogout, 0, 0]

  /** They are what encode_subscribe_info, encode_trust_udp and encode_logout write. */
  lemma {:induction false} ReplyFramesEncoded()
    ensures SubscribeInfoFrame == EncodeSubscribeInfo() && TrustUdpFrame == EncodeTrustUdp()
    ensures LogoutFrame == EncodeLogout()
  {
    BareHeader(EncodeSubscribeInfo(), ClientSubscribeInfo);
    BareHeader(EncodeTrustUdp(), ClientTrustUdp);
    BareHeader(EncodeLogout(), ClientLogout);
  }

  /** A frame with an empty payload is its type byte and two zero length bytes. */
  lemma {:induction false} BareHeader(r: seq<byte>, messageType: byte)
    requires Framed(r, messageType) && |r| == HeaderSize
    ensures r == [messageType, 0, 0]
  {
    assert At(r, 0) == r[0] && At(r, 1) == r[1] && At(r, 2) == r[2];
  }

  /** Frames handled one after another: the final state and every send, in order. */
  function Run(s: ClientState, frames: seq<seq<byte>>, udpSocket: int): (r: (ClientState, seq<ClientSend>))
    ensures r.0.buffer == s.buffer
    ensures WellFormed(s) && udpSocket >= -1 ==> WellFormed(r.0)
    decreases |frames|
  {
    if |frames| == 0 then (s, [])
    else
      var (t, out) := Run(s, frames[..|frames| - 1], udpSocket);
      var f := frames[|frames| - 1];
      (StateAfter(t, f, udpSocket), out + SendsFor(t.tcpFd, t.udpPort, f, udpSocket))
  }

  /** Handling a frame does not look at the stream buffer. */
  lemma {:induction false} BufferIrrelevant(s: ClientState, frame: seq<byte>, udpSocket: int, b: seq<byte>)
    ensures StateAfter(s.(buffer := b), frame, udpSocket) == StateAfter(s, frame, udpSocket).(buffer := b)
  {
    if |frame| >= HeaderSize {
      var t := DecodeHeader(frame).messageType;
      var p := frame[HeaderSize..];
      if t == ServerLoginStatus {
        assert DecodeLoginStatus(p).1 == LoginOk || DecodeLoginStatus(p).1 != LoginOk;
      } else if t == ServerGameStep {
        var d := DecodeGameStepCapped(p, DecodeHeader(frame).dataLength);
      }
    }
  }

  /** One more frame handled: the fold extended by its last step. */
  lemma {:induction false} RunSnoc(s: ClientState, frames: seq<seq<byte>>, f: seq<byte>, udpSocket: int)
    ensures var (t, out) := Run(s, frames, udpSocket);
      Run(s, frames + [f], udpSocket) == (StateAfter(t, f, udpSocket), out + SendsFor(t.tcpFd, t.udpPort, f, udpSocket))
  {
    assert (frames + [f])[..|frames|] == frames;
  }

  // ---------------------------------------------------------------------
  // What the server's frames mean to the client
  // ---------------------------------------------------------------------

  /**
   * The login handshake: a successful login status from the server leaves
   * the client waiting, holding the server's token, and makes it send that
   * very token back over UDP, where the server reads it.
   */
  lemma {:induction false} LoginHandshake(s: ClientState, symbol: char, token: int, udpSocket: int)
    requires udpSocket >= 0
    ensures var frame := EncodeLoginStatus(symbol, LoginOk, token);
      var r := StateAfter(s, frame, udpSocket);
      var out := SendsFor(s.tcpFd, s.udpPort, frame, udpSocket);
      && r.state == Waiting && r.sessionToken == Wrap32(token) && r.udpFd == udpSocket
      && out == [UdpOut(s.udpPort, EncodeConnectUdp(Wrap32(token)))]
      && DecodeConnectUdp(Payload(out[0].bytes)) == Wrap32(token)
  {
    var frame := EncodeLoginStatus(symbol, LoginOk, token);
    LoginAccepted(s, frame, udpSocket);
    Wrap32Idempotent(token);
  }

  /** Any login-status frame that reports success: the client waits with the token and sends it back over UDP. */
  lemma {:induction false} LoginAccepted(s: ClientState, frame: seq<byte>, udpSocket: int)
    requires |frame| >= HeaderSize && DecodeHeader(frame).messageType == ServerLoginStatus
    requires DecodeLoginStatus(Payload(frame)).1 == LoginOk && udpSocket >= 0
    ensures var token := DecodeLoginStatus(Payload(frame)).2;
      var r := StateAfter(s, frame, udpSocket);
      && r.state == Waiting && r.sessionToken == token && r.udpFd == udpSocket
      && SendsFor(s.tcpFd, s.udpPort, frame, udpSocket) == [UdpOut(s.udpPort, EncodeConnectUdp(token))]
  {
    LoginStatusFrame(s, frame, udpSocket);
  }

  /** A login-status frame is handled by `AfterLoginStatus` and answered by `UdpHandshake`. */
  lemma {:induction false} LoginStatusFrame(s: ClientState, frame: seq<byte>, udpSocket: int)
    requires |frame| >= HeaderSize && DecodeHeader(frame).messageType == ServerLoginStatus
    ensures StateAfter(s, frame, udpSocket) == AfterLoginStatus(s, Payload(frame), udpSocket)
    ensures SendsFor(s.tcpFd, s.udpPort, frame, udpSocket) == UdpHandshake(s.udpPort, Payload(frame), udpSocket)
  {
  }

  /** A token already within int32 wraps to itself. */
  lemma {:induction false} Wrap32Idempotent(v: int)
    ensures Wrap32(Wrap32(v)) == Wrap32(v)
  {
  }

  /**
   * Every login status the server sends reaches the menu as the matching
   * menu status: OK as logged in, an invalid letter, a letter in use and a
   * full room as the three refusals.
   */
  lemma {:induction false} LoginStatusesReachMenu(symbol: char, status: int, token: int)
    requires LoginOk <= status <= LoginRoomFull
    ensures var st := DecodeLoginStatus(Payload(EncodeLoginStatus(symbol, status, token))).1;
      LoginStatusFor(st) == Some([Menus.Logged, Menus.InvalidName, Menus.NameTaken, Menus.PlayerLimit][status])
  {
  }

  /**
   * A game step the server builds for an arena whose lists fit the
   * client's arrays reaches the client's state whole: the entity, spell
   * and player records are exactly the server's.
   */
  lemma {:induction false} GameStepReachesClient(s: ClientState, ents: seq<Entity>, spells: seq<Spell>,
                                                 roster: seq<Player>, udpSocket: int)
    requires |ents| <= MaxEntities && |spells| <= MaxSpells && |roster| <= MaxPlayers
    ensures var r := StateAfter(s, EncodeGameStep(ents, spells, roster), udpSocket);
      r == s.(entities := EntityRecords(ents), spells := SpellRecords(spells), playerData := PlayerRecords(roster))
  {
    var frame := EncodeGameStep(ents, spells, roster);
    GameStepFits(ents, spells, roster);
    GameStepCappedRoundTrip(ents, spells, roster);
  }

  /**
   * The server's settings reach the client unchanged: a STATIC_INFO frame
   * built from four values that fit a uint16 leaves the client with
   * exactly those values, back in the menu, and nothing else changed.
   */
  lemma {:induction false} StaticInfoReachesClient(s: ClientState, udpPort: int, mapSize: int, winnerPoints: int,
                                                   maxPlayers: int, udpSocket: int)
    requires IsUint16(udpPort) && IsUint16(mapSize) && IsUint16(winnerPoints) && IsUint16(maxPlayers)
    ensures StateAfter(s, EncodeStaticInfo(udpPort, mapSize, winnerPoints, maxPlayers), udpSocket)
      == s.(udpPort := udpPort, mapSize := mapSize, winnerPoints := winnerPoints, maxPlayers := maxPlayers, state := MenuScreen)
  {
    var frame := EncodeStaticInfo(udpPort, mapSize, winnerPoints, maxPlayers);
    assert DecodeHeader(frame).messageType == ServerStaticInfo;
    assert StateAfter(s, frame, udpSocket) == AfterStaticInfo(s, Payload(frame));
    StaticInfoFits(udpPort, mapSize, winnerPoints, maxPlayers);
    StaticInfoSettings(s, Payload(frame), udpPort, mapSize, winnerPoints, maxPlayers);
  }

  /** The handler's half of StaticInfoReachesClient: the four decoded values land in the four settings. */
  lemma {:induction false} StaticInfoSettings(s: ClientState, p: seq<byte>, udpPort: int, mapSize: int, winnerPoints: int, maxPlayers: int)
    requires DecodeStaticInfo(p) == (udpPort, mapSize, winnerPoints, maxPlayers)
    ensures AfterStaticInfo(s, p)
      == s.(udpPort := udpPort, mapSize := mapSize, winnerPoints := winnerPoints, maxPlayers := maxPlayers, state := MenuScreen)
  {
    var info := DecodeStaticInfo(p);
    assert info.0 == udpPort && info.1 == mapSize && info.2 == winnerPoints && info.3 == maxPlayers;
  }

  /**
   * The waiting-room list reaches the client: a DYNAMIC_INFO frame for
   * fewer than 256 players sets the count to exactly that number, puts the
   * first Min(count, 8) symbols in the first cells and keeps the others.
   */
  lemma {:induction false} DynamicInfoReachesClient(s: ClientState, symbols: seq<char>, count: int, udpSocket: int)
    requires 0 <= count <= |symbols| && count < 256 && Narrow(symbols) && |s.players| == MaxPlayers
    ensures var r := StateAfter(s, EncodeDynamicInfo(symbols, count), udpSocket);
      var n := Min(count, MaxPlayers);
      && r == s.(playerCount := count, players := r.players)
      && r.players[..n] == symbols[..n] && r.players[n..] == s.players[n..]
  {
    var frame := EncodeDynamicInfo(symbols, count);
    assert DecodeHeader(frame).messageType == ServerDynamicInfo;
    assert StateAfter(s, frame, udpSocket) == AfterDynamicInfo(s, Payload(frame));
    DynamicInfoPlayers(s, Payload(frame), symbols, count);
  }

  /** The handler's half of DynamicInfoReachesClient: a count byte and that many symbols fill the first cells. */
  lemma {:induction false} DynamicInfoPlayers(s: ClientState, p: seq<byte>, symbols: seq<char>, count: int)
    requires 0 <= count <= |symbols| && count < 256 && Narrow(symbols) && |s.players| == MaxPlayers
    requires |p| == 1 + count && p[0] == count && p[1..] == BytesOf(symbols[..count])
    ensures var r := AfterDynamicInfo(s, p);
      var n := Min(count, MaxPlayers);
      && r == s.(playerCount := count, players := r.players)
      && r.players[..n] == symbols[..n] && r.players[n..] == s.players[n..]
  {
    var r := AfterDynamicInfo(s, p);
    var n := Min(count, MaxPlayers);
    assert At(p, 0) == count;
    assert r.players == SymbolsAfter(s.players, p);
    forall i | 0 <= i < n
      ensures r.players[i] == symbols[i]
    {
      assert At(p, 1 + i) == p[1..][i] == BytesOf(symbols[..count])[i] == ByteOf(symbols[i]);
    }
  }

  /** The winner reaches the client: a FINISH_GAME frame for a one-byte symbol ends the game with exactly that winner. */
  lemma {:induction false} FinishGameReachesClient(s: ClientState, winner: char, udpSocket: int)
    requires (winner as int) < 256
    ensures StateAfter(s, EncodeFinishGame(winner), udpSocket) == s.(winner := winner, state := GameOver)
  {
    var frame := EncodeFinishGame(winner);
    assert AfterFinishGame(s, Payload(frame)).winner == winner;
  }

  /** A game step for lists that fit the client's arrays is short enough for its length field. */
  lemma {:induction false} GameStepFits(ents: seq<Entity>, spells: seq<Spell>, roster: seq<Player>)
    requires |ents| <= MaxEntities && |spells| <= MaxSpells && |roster| <= MaxPlayers
    ensures |EncodeGameStep(ents, spells, roster)| - HeaderSize < 0x1_0000
  {
  }

  // ---------------------------------------------------------------------
  // What the menu and the arena view are told
  // ---------------------------------------------------------------------

  /**
   * sync_menu_state's connection status: connecting while connecting; in
   * the menu, connected exactly when the TCP socket is open; connected
   * while waiting, playing or after the game; not found once disconnected.
   */
  function StatusFor(st: StateType, tcpOpen: bool): (r: Menus.ConnectionStatus)
    ensures r == Menus.Connected <==> st in {Waiting, Playing, GameOver} || (st == MenuScreen && tcpOpen)
    ensures r == Menus.Connecting <==> st == Connecting
    ensures r == Menus.NotFound <==> st == Disconnected
    ensures r != Menus.ConnectionLost
  {
    match st
    case Connecting => Menus.Connecting
    case MenuScreen => if tcpOpen then Menus.Connected else Menus.NotConnected
    case Waiting => Menus.Connected
    case Playing => Menus.Connected
    case GameOver => Menus.Connected
    case Disconnected => Menus.NotFound
  }

  /** The menu after sync_menu_state: the status, the symbols, and the countdown when one is running. */
  function SyncedMenu(m: Menus.MenuStatus, s: ClientState): (r: Menus.MenuStatus)
    requires |m.loggedPlayers| == Menus.MaxWaitingRoomPlayers && WellFormed(s)
    ensures r.connectionStatus == StatusFor(s.state, s.tcpFd >= 0)
    ensures r.connectionStatus != Menus.Connected ==> !r.serverInfo.hasInfo && r.loginStatus == Menus.NotLogged
    ensures r.loggedPlayersCount == s.playerCount && |r.loggedPlayers| == Menus.MaxWaitingRoomPlayers
    ensures r.startCountdown == if s.waitSeconds > 0 then s.waitSeconds else m.startCountdown
  {
    var synced := Menus.WithPlayers(Menus.WithConnection(m, StatusFor(s.state, s.tcpFd >= 0)), s.players, s.playerCount);
    if s.waitSeconds > 0 then synced.(startCountdown := s.waitSeconds) else synced
  }

  /** The index of the first entity with the symbol, or -1. */
  function FirstWithSymbol(ents: seq<EntityData>, symbol: byte): (j: int)
    ensures -1 <= j < |ents|
    ensures j >= 0 ==> ents[j].symbol == symbol && forall k :: 0 <= k < j ==> ents[k].symbol != symbol
    ensures j < 0 ==> forall k :: 0 <= k < |ents| ==> ents[k].symbol != symbol
  {
    if |ents| == 0 then -1
    else if ents[0].symbol == symbol then 0
    else
      var j := FirstWithSymbol(ents[1..], symbol);
      assert forall k :: 1 <= k < |ents| ==> ents[k] == ents[1..][k - 1];
      if j < 0 then -1 else j + 1
  }

  /**
   * The player table sync_arena_state builds: row i for the i-th player
   * record, pointing at the first entity with the player's symbol and
   * marked as the user's own when the symbol is the user's.
   */
  function PlayerRows(ps: seq<PlayerData>, ents: seq<EntityData>, me: char): (r: seq<ArenaPlayer>)
    ensures |r| == |ps| && forall i :: 0 <= i < |r| ==> r[i].id == i
  {
    seq(|ps|, i requires 0 <= i < |ps| =>
      ArenaPlayer(i, CharOf(ps[i].symbol), ps[i].points, FirstWithSymbol(ents, ps[i].symbol),
                  if ps[i].symbol == ByteOf(me) then 1 else 0))
  }

  /** The entity row for the i-th record: full health and energy scales of 100, a player, no damage seen. */
  function EntityRow(i: int, e: EntityData): ArenaEntity
  {
    ArenaEntity(i, CharOf(e.symbol), e.posX, e.posY, e.health, 100, e.energy, 100, e.direction, e.spellType, 1, 0)
  }

  /** The entity table sync_arena_state builds: row i for the i-th record. */
  function EntityRows(ents: seq<EntityData>): (r: seq<ArenaEntity>)
    ensures |r| == |ents| && forall i :: 0 <= i < |r| ==> r[i] == EntityRow(i, ents[i])
  {
    seq(|ents|, i requires 0 <= i < |ents| => EntityRow(i, ents[i]))
  }

  /** The spell sync_arena_state sets for a record: active, drawn on its own cell. */
  function SpellRow(sp: SpellData): ArenaSpell
  {
    ArenaSpell(sp.id, sp.posX, sp.posY, sp.posX, sp.posY, sp.direction, sp.spellType, 1.0, 1)
  }

  /** The spell table after setting every record, in order, into an empty table. */
  function SpellsView(ss: seq<SpellData>): seq<ArenaSpell>
  {
    if |ss| == 0 then [] else SpellsAfterSet(SpellsView(ss[..|ss| - 1]), SpellRow(ss[|ss| - 1]))
  }

  /** No two spell records share an id. */
  predicate UniqueSpellIds(ss: seq<SpellData>)
  {
    forall i, j :: 0 <= i < j < |ss| ==> ss[i].id != ss[j].id
  }

  /**
   * Because the table is emptied first, every spell of a step with
   * distinct ids is entered as a new spell: the table is the records in
   * order, each drawn on its own cell with its interpolation finished, so
   * no spell is ever drawn moving between two cells.
   */
  lemma {:induction false} SpellsViewFresh(ss: seq<SpellData>)
    requires UniqueSpellIds(ss) && |ss| <= MaxArenaSpells
    ensures SpellsView(ss) == seq(|ss|, i requires 0 <= i < |ss| => SpellRow(ss[i]))
  {
    if |ss| > 0 {
      var front := ss[..|ss| - 1];
      var last := ss[|ss| - 1];
      SpellsViewFresh(front);
      var rows := SpellsView(front);
      assert last.id !in SpellIds(rows) by {
        forall k | 0 <= k < |rows| ensures SpellIds(rows)[k] != last.id {
          assert rows[k] == SpellRow(ss[k]);
        }
      }
      assert SpellEntry(rows, SpellRow(last)) == SpellRow(last);
    }
  }

  /** The view's fields after sync_arena_state: the user's entity as current player, if found, and the last direction. */
  function SyncedInfo(v: ViewInfo, s: ClientState): (r: ViewInfo)
    ensures r == v.(currentPlayerId := r.currentPlayerId, currentDirection := r.currentDirection, localDirection := s.lastDirection)
    ensures (forall k :: 0 <= k < |s.entities| ==> s.entities[k].symbol != ByteOf(s.playerSymbol)) ==>
      r.currentPlayerId == v.currentPlayerId && r.currentDirection == v.currentDirection
    ensures (exists k :: 0 <= k < |s.entities| && s.entities[k].symbol == ByteOf(s.playerSymbol)) ==>
      && 0 <= r.currentPlayerId < |s.entities| && s.entities[r.currentPlayerId].symbol == ByteOf(s.playerSymbol)
      && (forall k :: 0 <= k < r.currentPlayerId ==> s.entities[k].symbol != ByteOf(s.playerSymbol))
      && r.currentDirection == s.entities[r.currentPlayerId].direction
  {
    var j := FirstWithSymbol(s.entities, ByteOf(s.playerSymbol));
    var found := if j >= 0 then v.(currentPlayerId := j, currentDirection := s.entities[j].direction) else v;
    found.(localDirection := s.lastDirection)
  }

  /** strncpy(state.host, host, 255): at most 255 characters of the C string. */
  function HostField(host: seq<char>): (r: seq<char>)
    ensures |r| < HostCapacity && '\0' !in r
  {
    CStr(host)[..Min(|CStr(host)|, HostCapacity - 1)]
  }

  /** The TCP port client_app_create settles on: the one given, when positive. */
  function StartPort(tcpPort: int): (r: int)
    ensures r > 0
  {
    if tcpPort > 0 then tcpPort else DefaultTcpPort
  }

  /** The address client_app_create puts in the menu: host:port, or empty without a host. */
  function DefaultAddress(host: Option<seq<char>>, tcpPort: int): (r: seq<char>)
    ensures |r| < AddressCapacity && '\0' !in r
  {
    if host.Some? then FormatAddr(host.value, StartPort(tcpPort)) else ""
  }

  /**
   * The default address in the menu leads back to where the client was
   * started: parsing it gives the host and the port it was made from,
   * whenever it fits the menu's field.
   */
  lemma {:induction false} DefaultAddressParses(host: seq<char>, tcpPort: int)
    requires StartPort(tcpPort) <= MaxPort
    requires |CStr(host)| + 1 + |Decimal(StartPort(tcpPort))| < AddressCapacity
    ensures var (h, port) := ParseServerAddr(DefaultAddress(Some(host), tcpPort));
      h == HostField(host) && port == StartPort(tcpPort)
  {
    ParseFormatRoundTrip(host, StartPort(tcpPort));
    assert CStr(host)[..|CStr(host)|] == CStr(host);
  }

  /** recvfrom into a buffer of MAX_PACKET_SIZE bytes: a longer datagram is cut. */
  function Datagram(d: seq<byte>): (r: seq<byte>)
    ensures |r| == Min(|d|, MaxPacketSize) && r == d[..|r|]
  {
    d[..Min(|d|, MaxPacketSize)]
  }

  /**
   * handle_single_packet on the menu: the version text and compatibility,
   * the server's settings, the waiting players, the login result, the UDP
   * confirmation and the countdown; the connection status is not touched.
   */
  function MenuAfter(m: Menus.MenuStatus, s: ClientState, frame: seq<byte>): (r: Menus.MenuStatus)
    requires |m.loggedPlayers| == Menus.MaxWaitingRoomPlayers && WellFormed(s)
    ensures |r.loggedPlayers| == Menus.MaxWaitingRoomPlayers
    ensures r.connectionStatus == m.connectionStatus
    ensures |frame| < HeaderSize ==> r == m
  {
    if |frame| < HeaderSize then m
    else
      var t := DecodeHeader(frame).messageType;
      var p := frame[HeaderSize..];
      if t == ServerVersion then
        var (version, compatible) := VersionReply(p);
        m.(hasVersionInfo := true,
           versionInfo := Menus.VersionInfo(CStr(version)[..Min(|CStr(version)|, Menus.VersionCapacity - 1)], compatible))
      else if t == ServerStaticInfo then
        var info := DecodeStaticInfo(p);
        m.(serverInfo := m.serverInfo.(hasInfo := true, udpPort := info.0, mapSize := info.1,
                                       winnerPoints := info.2, maxPlayers := info.3))
      else if t == ServerDynamicInfo then
        var d := AfterDynamicInfo(s, p);
        Menus.WithPlayers(m, d.players, d.playerCount)
      else if t == ServerLoginStatus then
        match LoginStatusFor(DecodeLoginStatus(p).1)
        case Some(status) => m.(loginStatus := status)
        case None => m
      else if t == ServerUdpConnected then m.(serverInfo := m.serverInfo.(udpConfirmed := 1))
      else if t == ServerWaitArena then m.(startCountdown := ReadU16(p, 0))
      else m
  }

  /**
   * handle_single_packet on the arena view's fields: the map size and
   * points to win, a new game, the winner, the next-arena countdown with
   * the survivor of the arena just played, and after a game step the
   * fields sync_arena_state sets.
   */
  function ViewAfter(v: ViewInfo, s: ClientState, frame: seq<byte>): (r: ViewInfo)
    ensures r.arenaNumber == v.arenaNumber
    ensures |frame| < HeaderSize ==> r == v
  {
    if |frame| < HeaderSize then v
    else
      var h := DecodeHeader(frame);
      var p := frame[HeaderSize..];
      if h.messageType == ServerStaticInfo then
        var info := DecodeStaticInfo(p);
        v.(mapSize := info.1, winnerPoints := info.2)
      else if h.messageType == ServerStartGame then v.(gameFinished := false, nextArenaCountdown := -1)
      else if h.messageType == ServerFinishGame then v.(gameFinished := true, winnerSymbol := CharOf(At(p, 0)))
      else if h.messageType == ServerWaitArena then
        v.(nextArenaCountdown := ReadU16(p, 0), arenaWinnerSymbol := Survivor(s.entities))
      else if h.messageType == ServerGameStep then SyncedInfo(v, AfterGameStep(s, p, h.dataLength))
      else v
  }

  /** The menu after the frames, one after another, starting from the state s. */
  function MenuRun(m: Menus.MenuStatus, s: ClientState, frames: seq<seq<byte>>, udpSocket: int): (r: Menus.MenuStatus)
    requires |m.loggedPlayers| == Menus.MaxWaitingRoomPlayers && WellFormed(s) && udpSocket >= -1
    ensures |r.loggedPlayers| == Menus.MaxWaitingRoomPlayers
    ensures r.connectionStatus == m.connectionStatus
    decreases |frames|
  {
    if |frames| == 0 then m
    else
      var front := frames[..|frames| - 1];
      MenuAfter(MenuRun(m, s, front, udpSocket), Run(s, front, udpSocket).0, frames[|frames| - 1])
  }

  /** The view's fields after the frames, one after another, starting from the state s. */
  function ViewRun(v: ViewInfo, s: ClientState, frames: seq<seq<byte>>, udpSocket: int): (r: ViewInfo)
    ensures r.arenaNumber == v.arenaNumber
    decreases |frames|
  {
    if |frames| == 0 then v
    else
      var front := frames[..|frames| - 1];
      ViewAfter(ViewRun(v, s, front, udpSocket), Run(s, front, udpSocket).0, frames[|frames| - 1])
  }

  /** Some frame is a game step. */
  predicate AnyGameStep(frames: seq<seq<byte>>)
  {
    exists k :: 0 <= k < |frames| && IsGameStep(frames[k])
  }

  /** One more frame handled: the menu and view folds extended by its last step. */
  lemma {:induction false} ScreenRunSnoc(m: Menus.MenuStatus, v: ViewInfo, s: ClientState, frames: seq<seq<byte>>,
                                         f: seq<byte>, udpSocket: int)
    requires |m.loggedPlayers| == Menus.MaxWaitingRoomPlayers && WellFormed(s) && udpSocket >= -1
    ensures MenuRun(m, s, frames + [f], udpSocket) == MenuAfter(MenuRun(m, s, frames, udpSocket), Run(s, frames, udpSocket).0, f)
    ensures ViewRun(v, s, frames + [f], udpSocket) == ViewAfter(ViewRun(v, s, frames, udpSocket), Run(s, frames, udpSocket).0, f)
    ensures AnyGameStep(frames + [f]) <==> AnyGameStep(frames) || IsGameStep(f)
  {
    var all := frames + [f];
    assert all[..|frames|] == frames && all[|frames|] == f;
    if AnyGameStep(all) && !IsGameStep(f) {
      var k :| 0 <= k < |all| && IsGameStep(all[k]);
      assert frames[k] == all[k];
    }
    if AnyGameStep(frames) {
      var k :| 0 <= k < |frames| && IsGameStep(frames[k]);
      assert all[k] == frames[k];
    }
  }

  /** What a frame does to the menu and the view does not depend on the stream buffer either. */
  lemma {:induction false} ScreenBufferIrrelevant(m: Menus.MenuStatus, v: ViewInfo, s: ClientState, frame: seq<byte>, b: seq<byte>)
    requires |m.loggedPlayers| == Menus.MaxWaitingRoomPlayers && WellFormed(s) && |b| <= ClientBufferSize
    ensures MenuAfter(m, s.(buffer := b), frame) == MenuAfter(m, s, frame)
    ensures ViewAfter(v, s.(buffer := b), frame) == ViewAfter(v, s, frame)
  {
    if |frame| >= HeaderSize {
      var h := DecodeHeader(frame);
      var p := frame[HeaderSize..];
      if h.messageType == ServerGameStep {
        var d := DecodeGameStepCapped(p, h.dataLength);
        assert AfterGameStep(s.(buffer := b), p, h.dataLength) == AfterGameStep(s, p, h.dataLength).(buffer := b);
      } else if h.messageType == ServerDynamicInfo {
        assert AfterDynamicInfo(s.(buffer := b), p) == AfterDynamicInfo(s, p).(buffer := b);
      }
    }
  }

  /**
   * Handling one more frame from a state that differs from the fold's only
   * in its buffer extends every fold by that frame.
   */
  lemma {:induction false} StepFolds(s0: ClientState, m0: Menus.MenuStatus, v0: ViewInfo, handled: seq<seq<byte>>,
                                     f: seq<byte>, b: seq<byte>, udpSocket: int)
    requires WellFormed(s0) && |m0.loggedPlayers| == Menus.MaxWaitingRoomPlayers && udpSocket >= -1 && |b| <= ClientBufferSize
    ensures var t := Run(s0, handled, udpSocket).0;
      && StateAfter(t.(buffer := b), f, udpSocket) == Run(s0, handled + [f], udpSocket).0.(buffer := b)
      && Run(s0, handled + [f], udpSocket).1 == Run(s0, handled, udpSocket).1 + SendsFor(t.tcpFd, t.udpPort, f, udpSocket)
      && MenuAfter(MenuRun(m0, s0, handled, udpSocket), t.(buffer := b), f) == MenuRun(m0, s0, handled + [f], udpSocket)
      && ViewAfter(ViewRun(v0, s0, handled, udpSocket), t.(buffer := b), f) == ViewRun(v0, s0, handled + [f], udpSocket)
      && (AnyGameStep(handled + [f]) <==> AnyGameStep(handled) || IsGameStep(f))
  {
    var t := Run(s0, handled, udpSocket).0;
    BufferIrrelevant(t, f, udpSocket, b);
    ScreenBufferIrrelevant(MenuRun(m0, s0, handled, udpSocket), ViewRun(v0, s0, handled, udpSocket), t, f, b);
    RunSnoc(s0, handled, f, udpSocket);
    ScreenRunSnoc(m0, v0, s0, handled, f, udpSocket);
  }

  /** Cutting the leading whole frame off the buffer. */
  lemma {:induction false} FramesCut(b: seq<byte>)
    requires |b| >= HeaderSize && |b| >= FrameSize(b)
    ensures Frames(b) == [b[..FrameSize(b)]] + Frames(b[FrameSize(b)..]) && Rest(b) == Rest(b[FrameSize(b)..])
  {
  }

  /** A loop over the buffer that has handled some frames and cut one more has handled one more. */
  lemma {:induction false} FramesStep(b0: seq<byte>, handled: seq<seq<byte>>, b: seq<byte>, f: seq<byte>, b': seq<byte>)
    requires Frames(b0) == handled + Frames(b) && Rest(b0) == Rest(b)
    requires Frames(b) == [f] + Frames(b') && Rest(b) == Rest(b')
    ensures Frames(b0) == (handled + [f]) + Frames(b') && Rest(b0) == Rest(b')
  {
    assert handled + ([f] + Frames(b')) == (handled + [f]) + Frames(b');
  }

  /** Once the buffer holds no whole frame, the loop has handled all of the frames and left the rest. */
  lemma {:induction false} FramesDone(b0: seq<byte>, handled: seq<seq<byte>>, b: seq<byte>)
    requires Frames(b0) == handled + Frames(b) && Rest(b0) == Rest(b) && !(|b| >= HeaderSize && |b| >= FrameSize(b))
    ensures handled == Frames(b0) && b == Rest(b0)
  {
    assert Frames(b) == [] && Rest(b) == b;
    assert handled + [] == handled;
  }

  // ---------------------------------------------------------------------
  // Connecting, logging out and the keyboard
  // ---------------------------------------------------------------------

  /** The version client_app_connect announces (PROTOCOL_VERSION). */
  const ProtocolVersionText := "1.0.0"

  /**
   * What the system answers to client_app_connect: the descriptor
   * socket_tcp_create returns (negative when it fails), whether
   * socket_connect succeeds and whether the socket becomes writable
   * within a second.
   */
  datatype ConnectOutcome = ConnectOutcome(fd: int, connects: bool, writable: bool)

  /** What an operation leaves: the client's state, the menu's status, the frames it sends and whether the main loop goes on. */
  datatype Effect = Effect(state: ClientState, menu: Menus.MenuStatus, sent: seq<ClientSend>, running: bool)

  /**
   * client_app_connect: the client is connecting; without a socket it is
   * disconnected, and when the connection is refused or the socket does
   * not become writable the socket is closed and the client is back in
   * the menu, the server not found in each case; otherwise it is
   * connected and announces its protocol version.
   */
  function ConnectAfter(s: ClientState, m: Menus.MenuStatus, running: bool, outcome: ConnectOutcome): (r: Effect)
    ensures r.running == running
    ensures r.sent != [] <==> outcome.fd >= 0 && outcome.connects && outcome.writable
    ensures r.sent != [] ==> r.sent == [TcpOut(EncodeVersion(ProtocolVersionText))] && r.state.tcpFd == outcome.fd
    ensures r.sent == [] ==> r.state.tcpFd == -1
    ensures r.menu.connectionStatus == (if r.sent != [] then Menus.Connected else Menus.NotFound)
    ensures r.state.state == (if outcome.fd < 0 then Disconnected else if r.sent != [] then Connecting else MenuScreen)
    ensures r.state.(state := s.state, tcpFd := s.tcpFd) == s
    ensures WellFormed(s) ==> WellFormed(r.state)
  {
    var connecting := Menus.WithConnection(m, Menus.Connecting);
    if outcome.fd < 0 then
      Effect(s.(state := Disconnected, tcpFd := -1), Menus.WithConnection(connecting, Menus.NotFound), [], running)
    else
      OpenedAfter(s.(state := Connecting, tcpFd := outcome.fd), connecting, running, outcome)
  }

  /**
   * The rest of client_app_connect once socket_tcp_create has given the
   * socket s.tcpFd: a refused connection, or a socket that does not
   * become writable, closes it and sends the client back to the menu.
   */
  function OpenedAfter(s: ClientState, m: Menus.MenuStatus, running: bool, outcome: ConnectOutcome): (r: Effect)
    requires s.tcpFd >= 0
    ensures r.running == running
    ensures r.sent != [] <==> outcome.connects && outcome.writable
    ensures r.sent != [] ==> r.sent == [TcpOut(EncodeVersion(ProtocolVersionText))] && r.state == s
    ensures r.sent == [] ==> r.state == s.(state := MenuScreen, tcpFd := -1)
    ensures r.menu.connectionStatus == (if r.sent != [] then Menus.Connected else Menus.NotFound)
  {
    if !outcome.connects then
      Effect(s.(state := MenuScreen, tcpFd := CloseFd(s.tcpFd)), Menus.WithConnection(m, Menus.NotFound), [], running)
    else
      var connected := Menus.WithConnection(m, Menus.Connected);
      if !outcome.writable then
        Effect(s.(state := MenuScreen, tcpFd := CloseFd(s.tcpFd)), Menus.WithConnection(connected, Menus.NotFound), [], running)
      else
        Effect(s, connected, TcpSends(s.tcpFd, EncodeVersion(ProtocolVersionText)), running)
  }

  /** The frame a successful connection sends reads back, as decode_version reads it, as the protocol version. */
  lemma {:induction false} ConnectAnnouncesVersion(s: ClientState, m: Menus.MenuStatus, running: bool, outcome: ConnectOutcome, maxLen: nat)
    requires ConnectAfter(s, m, running, outcome).sent != [] && maxLen > |ProtocolVersionText|
    ensures var f := ConnectAfter(s, m, running, outcome).sent[0].bytes;
      Framed(f, ClientVersion) && DecodeVersion(Payload(f), maxLen).0 == ProtocolVersionText
  {
    CStrNoNul(ProtocolVersionText);
    assert VersionText(ProtocolVersionText) == ProtocolVersionText;
    VersionRoundTrip(ProtocolVersionText, maxLen);
  }

  /**
   * The logout and disconnect branches of client_app_handle_input: the
   * logout frame when the TCP socket is open (client_app_disconnect), the
   * state reset, and the menu not connected, which forgets the login too.
   */
  function LoggedOut(s: ClientState, m: Menus.MenuStatus, running: bool): (r: Effect)
    ensures r.running == running && r.state == ResetOf(s)
    ensures r.menu.connectionStatus == Menus.NotConnected && r.menu.loginStatus == Menus.NotLogged
    ensures r.sent == TcpSends(s.tcpFd, LogoutFrame)
  {
    Effect(ResetOf(s), Menus.WithConnection(m, Menus.NotConnected), TcpSends(s.tcpFd, LogoutFrame), running)
  }

  /** What leaving the server achieves: both sockets closed, back in the menu, and the server told with a logout frame when it was connected. */
  lemma {:induction false} LogOutClosesSockets(s: ClientState, m: Menus.MenuStatus, running: bool)
    requires WellFormed(s)
    ensures var r := LoggedOut(s, m, running);
      && WellFormed(r.state) && r.state.tcpFd == -1 && r.state.udpFd == -1 && r.state.state == MenuScreen
      && (s.tcpFd >= 0 <==> r.sent == [TcpOut(EncodeLogout())])
      && (s.tcpFd < 0 <==> r.sent == [])
  {
    ReplyFramesEncoded();
  }

  /**
   * The command a key left unhandled by the menu gives in the menu and
   * waiting states: Escape or Enter; any other key does nothing.
   */
  function MenuCommandAfter(s: ClientState, m: Menus.MenuStatus, running: bool, unhandled: int,
                            addr: seq<char>, character: char, outcome: ConnectOutcome): (r: Effect)
    ensures WellFormed(s) ==> WellFormed(r.state)
    ensures r.running != running ==>
      running && !r.running && unhandled == Input.KeyEscape && r.sent == [] && r.state == s && r.menu == m
  {
    if unhandled == Input.KeyEscape then EscapeAfter(s, m, running)
    else if Input.IsConfirmKey(unhandled) then EnterAfter(s, m, running, addr, character, outcome)
    else Effect(s, m, [], running)
  }

  /** Escape in the menu: logs out when logged in, disconnects when connected, and otherwise leaves the main loop. */
  function EscapeAfter(s: ClientState, m: Menus.MenuStatus, running: bool): (r: Effect)
    ensures WellFormed(s) ==> WellFormed(r.state)
    ensures r.running != running ==> running && !r.running && r.sent == [] && r.state == s && r.menu == m
    ensures r.running ==> r.menu.connectionStatus == Menus.NotConnected && r.menu.loginStatus == Menus.NotLogged
  {
    if m.loginStatus == Menus.Logged || m.connectionStatus == Menus.Connected then LoggedOut(s, m, running)
    else Effect(s, m, [], false)
  }

  /**
   * Enter in the menu: connects to the address typed when not connected
   * and an address is there, or logs in with the character chosen when
   * connected, not logged in and a character is there.
   */
  function EnterAfter(s: ClientState, m: Menus.MenuStatus, running: bool,
                      addr: seq<char>, character: char, outcome: ConnectOutcome): (r: Effect)
    ensures WellFormed(s) ==> WellFormed(r.state)
    ensures r.running == running
  {
    if m.connectionStatus != Menus.Connected then
      if |CStr(addr)| > 0 then
        var (host, port) := ParseServerAddr(addr);
        ConnectAfter(s.(host := host, tcpPort := port), m, running, outcome)
      else Effect(s, m, [], running)
    else if m.loginStatus != Menus.Logged && character != '\0' then
      Effect(s.(playerSymbol := character), m, TcpSends(s.tcpFd, EncodeLogin(character)), running)
    else Effect(s, m, [], running)
  }

  /**
   * The playing state's keys: Escape or 'q' leaves the server; '1' and
   * '2' select the spell; the space bar casts it towards the last
   * direction; a direction key turns the player and moves it.
   */
  function PlayingKeyAfter(s: ClientState, m: Menus.MenuStatus, running: bool, key: Input.Key): (r: Effect)
    ensures WellFormed(s) ==> WellFormed(r.state)
    ensures r.running == running
  {
    if Input.IsQuitKey(key) then LoggedOut(s, m, running)
    else if Input.IsSpell1Key(key) then Effect(s.(selectedSpellType := 1), m, [], running)
    else if Input.IsSpell2Key(key) then Effect(s.(selectedSpellType := 2), m, [], running)
    else if Input.IsActionKey(key) then
      Effect(s, m, TcpSends(s.tcpFd, EncodeCastSkill(s.lastDirection, s.selectedSpellType)), running)
    else
      var dir := Input.KeyToDirection(key);
      if dir != Directions.None then
        Effect(s.(lastDirection := dir), m, TcpSends(s.tcpFd, EncodeMovePlayer(dir)), running)
      else Effect(s, m, [], running)
  }

  /**
   * client_app_handle_input, state by state.  In the menu and waiting
   * states the menu sees the key first; unhandled is what it passes on
   * and addr and character are its fields after the key.
   */
  function InputAfter(s: ClientState, m: Menus.MenuStatus, running: bool, key: Input.Key, unhandled: int,
                      addr: seq<char>, character: char, outcome: ConnectOutcome): (r: Effect)
    ensures WellFormed(s) ==> WellFormed(r.state)
    ensures r.running != running ==>
      && running && !r.running && r.sent == [] && r.state == s && r.menu == m
      && ((s.state in {MenuScreen, Waiting} && unhandled == Input.KeyEscape) || (s.state == Disconnected && key == Input.KeyEscape))
  {
    match s.state
    case MenuScreen => MenuCommandAfter(s, m, running, unhandled, addr, character, outcome)
    case Waiting => MenuCommandAfter(s, m, running, unhandled, addr, character, outcome)
    case Connecting => if key == Input.KeyEscape then LoggedOut(s, m, running) else Effect(s, m, [], running)
    case Playing => PlayingKeyAfter(s, m, running, key)
    case GameOver => if Input.IsConfirmKey(key) then LoggedOut(s, m, running) else Effect(s, m, [], running)
    case Disconnected =>
      if key == Input.KeyEscape then Effect(s, m, [], false)
      else Effect(WithState(s, MenuScreen), Menus.WithConnection(m, Menus.NotConnected), [], running)
  }

  /**
   * While playing, a direction key turns the player to that direction and
   * sends a move the server reads back as that direction; nothing is sent
   * when the TCP socket is closed.
   */
  lemma {:induction false} MoveKeyMovesPlayer(s: ClientState, m: Menus.MenuStatus, running: bool, key: Input.Key,
                                              unhandled: int, addr: seq<char>, character: char, outcome: ConnectOutcome)
    requires s.state == Playing && Input.KeyToDirection(key) != Directions.None
    ensures var r := InputAfter(s, m, running, key, unhandled, addr, character, outcome);
      && r.state == s.(lastDirection := Input.KeyToDirection(key)) && r.menu == m && r.running == running
      && (s.tcpFd >= 0 ==> |r.sent| == 1 && Framed(r.sent[0].bytes, ClientMovePlayer)
                           && DecodeMovePlayer(Payload(r.sent[0].bytes)) == Input.KeyToDirection(key))
      && (s.tcpFd < 0 ==> r.sent == [])
  {
    Input.KeyRolesExclusive(key);
    var dir := Input.KeyToDirection(key);
    assert !Input.IsQuitKey(key) && !Input.IsSpell1Key(key) && !Input.IsSpell2Key(key) && !Input.IsActionKey(key);
    assert 0 <= dir < 256;
  }

  /**
   * While playing, the space bar sends a cast the server reads back as the
   * last direction (as a byte) and the selected spell, and changes nothing.
   */
  lemma {:induction false} ActionKeyCasts(s: ClientState, m: Menus.MenuStatus, running: bool,
                                          unhandled: int, addr: seq<char>, character: char, outcome: ConnectOutcome)
    requires s.state == Playing && s.tcpFd >= 0
    ensures var r := InputAfter(s, m, running, Input.KeySpace, unhandled, addr, character, outcome);
      && r.state == s && r.menu == m && r.running == running && |r.sent| == 1
      && Framed(r.sent[0].bytes, ClientCastSkill)
      && DecodeCastSkill(Payload(r.sent[0].bytes)) == (s.lastDirection % 256, s.selectedSpellType)
  {
    Input.KeyRolesExclusive(Input.KeySpace);
  }

  /**
   * In the menu, connected but not logged in, Enter with a character
   * chosen sends a login the server reads back as that character, and the
   * client remembers it as its symbol.
   */
  lemma {:induction false} EnterLogsIn(s: ClientState, m: Menus.MenuStatus, running: bool, key: Input.Key,
                                       unhandled: int, addr: seq<char>, character: char, outcome: ConnectOutcome)
    requires s.state == MenuScreen && s.tcpFd >= 0 && Input.IsConfirmKey(unhandled)
    requires m.connectionStatus == Menus.Connected && m.loginStatus != Menus.Logged
    requires character != '\0' && (character as int) < 256
    ensures var r := InputAfter(s, m, running, key, unhandled, addr, character, outcome);
      && r.state == s.(playerSymbol := character) && r.menu == m && |r.sent| == 1
      && Framed(r.sent[0].bytes, ClientLogin) && DecodeLogin(Payload(r.sent[0].bytes)) == character
  {
  }

  /**
   * In the menu and not connected, Enter with an address typed connects to
   * the host and port the address names, and nothing else of the state
   * changes beyond what the connection does.
   */
  lemma {:induction false} EnterConnects(s: ClientState, m: Menus.MenuStatus, running: bool, key: Input.Key,
                                         unhandled: int, addr: seq<char>, character: char, outcome: ConnectOutcome)
    requires s.state in {MenuScreen, Waiting} && Input.IsConfirmKey(unhandled)
    requires m.connectionStatus != Menus.Connected && |CStr(addr)| > 0
    ensures var r := InputAfter(s, m, running, key, unhandled, addr, character, outcome);
      && r.state.host == ParseServerAddr(addr).0 && r.state.tcpPort == ParseServerAddr(addr).1
      && r == ConnectAfter(s.(host := r.state.host, tcpPort := r.state.tcpPort), m, running, outcome)
  {
    Input.KeyRolesExclusive(unhandled);
  }

  /** The outcome of one TCP read: new bytes in the buffer, a lost connection, or nothing to do. */
  datatype TcpRead = Got(buffer: seq<byte>) | Lost | Idle

  /**
   * The read of client_app_handle_network: bytes that arrive are appended
   * to the buffer, as many as fit; the server closing the connection (a
   * read of no bytes) or an error other than EAGAIN/EWOULDBLOCK loses it;
   * a full buffer is not read at all.
   */
  function ReadTcp(buffer: seq<byte>, r: Received): (t: TcpRead)
    requires |buffer| <= ClientBufferSize
    ensures t.Got? ==> |t.buffer| <= ClientBufferSize && |buffer| < |t.buffer| && t.buffer[..|buffer|] == buffer
    ensures t.Got? <==> |buffer| < ClientBufferSize && r.Data? && r.bytes != []
    ensures t.Lost? <==> |buffer| < ClientBufferSize && (r.Closed? || (r.Data? && r.bytes == []) || (r.Failed? && !r.wouldBlock))
  {
    var room := ClientBufferSize - |buffer|;
    if room == 0 then Idle
    else match r
      case Data(bytes) =>
        if bytes == [] then Lost else Got(buffer + bytes[..Min(|bytes|, room)])
      case Closed => Lost
      case Failed(wouldBlock) => if wouldBlock then Idle else Lost
  }

  /** What the network handling changes: the client's state, the menu's status, the view's fields, and the sends so far. */
  datatype Screen = Screen(state: ClientState, menu: Menus.MenuStatus, view: ViewInfo, sent: seq<ClientSend>)

  /** A screen the handlers can work on: a well-formed state and the menu's eight player slots. */
  predicate Sound(c: Screen)
  {
    WellFormed(c.state) && |c.menu.loggedPlayers| == Menus.MaxWaitingRoomPlayers
  }

  /**
   * The TCP read r of client_app_handle_network (client/app.c:548-567):
   * with new bytes, every whole frame of the grown buffer is handled in
   * turn (`Run`, `MenuRun`, `ViewRun`), their replies are sent and the
   * incomplete rest stays in the buffer; a lost connection leaves the
   * client Disconnected and the menu showing it; otherwise nothing changes.
   */
  function AfterRead(c: Screen, r: Received, udpSocket: int): (d: Screen)
    requires Sound(c) && udpSocket >= -1
    ensures Sound(d)
  {
    match ReadTcp(c.state.buffer, r)
    case Got(b) =>
      var s := c.state.(buffer := b);
      var (t, out) := Run(s, Frames(b), udpSocket);
      FramesTile(b);
      Screen(t.(buffer := Rest(b)), MenuRun(c.menu, s, Frames(b), udpSocket), ViewRun(c.view, s, Frames(b), udpSocket), c.sent + out)
    case Lost => c.(state := WithState(c.state, Disconnected), menu := Menus.WithConnection(c.menu, Menus.ConnectionLost))
    case Idle => c
  }

  /** A datagram handled as one message (client/app.c:571-578): the state, menu and view after it, and its reply sent. */
  function AfterDatagram(c: Screen, d: seq<byte>, udpSocket: int): (e: Screen)
    requires Sound(c) && udpSocket >= -1
    ensures Sound(e)
  {
    Screen(StateAfter(c.state, d, udpSocket), MenuAfter(c.menu, c.state, d), ViewAfter(c.view, c.state, d),
           c.sent + SendsFor(c.state.tcpFd, c.state.udpPort, d, udpSocket))
  }

  /** The TCP half of client_app_handle_network: the read is made only when the TCP socket is open and has data. */
  function TcpPhase(c: Screen, tcp: Option<Received>, udpSocket: int): (d: Screen)
    requires Sound(c) && udpSocket >= -1
    ensures Sound(d)
  {
    if c.state.tcpFd >= 0 && tcp.Some? then AfterRead(c, tcp.value, udpSocket) else c
  }

  /** A datagram is handled when the UDP socket is open and a non-empty one arrived. */
  predicate UdpTaken(s: ClientState, udp: Option<seq<byte>>)
  {
    s.udpFd >= 0 && udp.Some? && udp.value != []
  }

  /**
   * client_app_handle_network: nothing once disconnected; otherwise the
   * TCP half, then, on the state it leaves, a waiting datagram cut to the
   * receive buffer's size.
   */
  function AfterNetwork(c: Screen, tcp: Option<Received>, udp: Option<seq<byte>>, udpSocket: int): (d: Screen)
    requires Sound(c) && udpSocket >= -1
    ensures Sound(d)
  {
    if c.state.state == Disconnected then c
    else
      var c1 := TcpPhase(c, tcp, udpSocket);
      if UdpTaken(c1.state, udp) then AfterDatagram(c1, Datagram(udp.value), udpSocket) else c1
  }

  /** The TCP read brought a game step among its whole frames. */
  predicate ReadsGameStep(s: ClientState, tcp: Option<Received>)
    requires WellFormed(s)
  {
    s.tcpFd >= 0 && tcp.Some? && ReadTcp(s.buffer, tcp.value).Got? && AnyGameStep(Frames(ReadTcp(s.buffer, tcp.value).buffer))
  }

  /**
   * What a read does, whatever the bytes: the frames it handles and the
   * rest it keeps tile the grown buffer, and no whole frame is left; the
   * sends are appended to those made before; a read of no bytes and an
   * end of stream both lose the connection, as on the server.
   */
  lemma {:induction false} ReadOutcomes(c: Screen, r: Received, udpSocket: int)
    requires Sound(c) && udpSocket >= -1
    ensures var d := AfterRead(c, r, udpSocket);
      && |d.sent| >= |c.sent| && d.sent[..|c.sent|] == c.sent
      && (ReadTcp(c.state.buffer, r).Got? ==>
            var b := ReadTcp(c.state.buffer, r).buffer;
            !Complete(d.state.buffer) && Concat(Frames(b)) + d.state.buffer == b)
      && (|c.state.buffer| < ClientBufferSize && (r == Data([]) || r == Closed) ==>
            d.state == WithState(c.state, Disconnected) && d.menu.connectionStatus == Menus.ConnectionLost && d.sent == c.sent)
  {
    match ReadTcp(c.state.buffer, r)
    case Got(b) =>
      FramesTile(b);
      RestIncomplete(b);
    case Lost =>
    case Idle =>
  }

  // ---------------------------------------------------------------------
  // The application
  // ---------------------------------------------------------------------

  /**
   * ClientApp: the client's state by value, its menu and its arena view,
   * updated in place, and the flag that keeps the main loop running.
   */
  class ClientApp {
    var state: ClientState
    const menu: Menus.Menu
    const view: ArenaView
    var running: bool

    ghost predicate Valid()
      reads this, menu, menu.address, view, view.players, view.entities, view.spells
    {
      WellFormed(state) && menu.Valid() && view.Valid()
    }

    /**
     * client_app_create: a fresh state that keeps the host and a positive
     * port given; a menu whose address field holds host:port (empty
     * without a host) and whose character is the state's symbol; an arena
     * view for the default map of 20 cells and 5 points.
     */
    constructor (host: Option<seq<char>>, tcpPort: int)
      ensures Valid() && running
      ensures state == Created().(host := if host.Some? then HostField(host.value) else DefaultHost,
                                  tcpPort := StartPort(tcpPort))
      ensures menu.ServerAddr() == DefaultAddress(host, tcpPort) && menu.character == 'A'
      ensures menu.connectionStatus == Menus.NotConnected && menu.loginStatus == Menus.NotLogged
      ensures view.Players() == [] && view.Entities() == [] && view.Spells() == []
      ensures view.Info() == ViewInfo(1, 5, 20, -1, 0, 2, false, '\0', -1, '\0')
    {
      var s := Created();
      if host.Some? {
        s := s.(host := HostField(host.value));
      }
      if tcpPort > 0 {
        s := s.(tcpPort := tcpPort);
      }
      var addr := DefaultAddress(host, tcpPort);
      CStrNoNul(addr);
      state := s;
      running := true;
      menu := new Menus.Menu(addr, if s.playerSymbol != '\0' then s.playerSymbol else 'A');
      view := new ArenaView(20, 5);
    }

    /**
     * sync_menu_state: the menu's connection status follows the client's
     * state (`StatusFor`), its player list the symbols, and its countdown
     * the seconds to wait when some remain.
     */
    method SyncMenuState()
      requires Valid()
      modifies menu
      ensures Valid()
      ensures menu.Status() == SyncedMenu(old(menu.Status()), state)
      ensures menu.ServerAddr() == old(menu.ServerAddr()) && menu.cursorPos == old(menu.cursorPos)
    {
      menu.SetConnectionStatus(StatusFor(state.state, state.tcpFd >= 0));
      menu.SetPlayers(state.players, state.playerCount);
      if state.waitSeconds > 0 {
        menu.SetCountdown(state.waitSeconds);
      }
    }

    /**
     * sync_arena_state: the three tables are emptied and refilled from the
     * last game step (`PlayerRows`, `EntityRows`, `SpellsView`), the
     * user's entity becomes the current player, and the view takes the
     * last direction the user chose.
     */
    method SyncArenaState(now: int)
      requires Valid()
      modifies view, view.players, view.entities, view.spells
      ensures Valid()
      ensures view.Players() == PlayerRows(state.playerData, state.entities, state.playerSymbol)
      ensures view.Entities() == EntityRows(state.entities)
      ensures view.Spells() == SpellsView(state.spells)
      ensures view.Info() == SyncedInfo(old(view.Info()), state)
    {
      view.ClearEntities();
      view.ClearSpells();
      view.ClearPlayers();
      AddPlayers();
      AddEntities(now);
      AddSpells();
      var j := FindCurrentPlayer();
      if j >= 0 {
        view.SetCurrentPlayer(j, state.entities[j].direction);
      }
      view.SetLocalDirection(state.lastDirection);
    }

    /** The first loop of sync_arena_state: one row per player record, into an emptied table. */
    method AddPlayers()
      requires Valid() && view.Players() == []
      modifies view, view.players
      ensures Valid()
      ensures view.Players() == PlayerRows(state.playerData, state.entities, state.playerSymbol)
      ensures view.Info() == old(view.Info()) && view.entityCount == old(view.entityCount) && view.spellCount == old(view.spellCount)
    {
      ghost var rows := PlayerRows(state.playerData, state.entities, state.playerSymbol);
      var i := 0;
      while i < |state.playerData|
        invariant 0 <= i <= |state.playerData| && Valid()
        invariant view.Players() == rows[..i]
        invariant view.Info() == old(view.Info()) && view.entityCount == old(view.entityCount) && view.spellCount == old(view.spellCount)
      {
        var p := state.playerData[i];
        var entityId := EntityOf(p.symbol);
        var isCurrent := if p.symbol == ByteOf(state.playerSymbol) then 1 else 0;
        ghost var before := view.Players();
        assert i !in PlayerIds(before);
        view.SetPlayer(i, CharOf(p.symbol), p.points, entityId, isCurrent);
        assert rows[..i + 1] == before + [rows[i]];
        i := i + 1;
      }
    }

    /** The inner loop of sync_arena_state: the index of the first entity with the symbol, or -1. */
    method EntityOf(symbol: byte) returns (j: int)
      ensures j == FirstWithSymbol(state.entities, symbol)
    {
      j := -1;
      var k := 0;
      while k < |state.entities|
        invariant 0 <= k <= |state.entities|
        invariant forall m :: 0 <= m < k ==> state.entities[m].symbol != symbol
      {
        if state.entities[k].symbol == symbol {
          j := k;
          return;
        }
        k := k + 1;
      }
    }

    /** The second loop of sync_arena_state: one row per entity record, into an emptied table. */
    method AddEntities(now: int)
      requires Valid() && view.Entities() == []
      modifies view, view.entities
      ensures Valid()
      ensures view.Entities() == EntityRows(state.entities)
      ensures view.Info() == old(view.Info()) && view.playerCount == old(view.playerCount) && view.spellCount == old(view.spellCount)
    {
      ghost var rows := EntityRows(state.entities);
      var i := 0;
      while i < |state.entities|
        invariant 0 <= i <= |state.entities| && Valid()
        invariant view.Entities() == rows[..i]
        invariant view.Info() == old(view.Info()) && view.playerCount == old(view.playerCount) && view.spellCount == old(view.spellCount)
      {
        ghost var before := view.Entities();
        assert i !in ArenaViews.EntityIds(before);
        view.SetEntity(EntityRow(i, state.entities[i]), now);
        assert rows[..i + 1] == before + [rows[i]];
        i := i + 1;
      }
    }

    /** The third loop of sync_arena_state: every spell record set in turn. */
    method AddSpells()
      requires Valid() && view.Spells() == []
      modifies view, view.spells
      ensures Valid()
      ensures view.Spells() == SpellsView(state.spells)
      ensures view.Info() == old(view.Info()) && view.playerCount == old(view.playerCount) && view.entityCount == old(view.entityCount)
    {
      var i := 0;
      while i < |state.spells|
        invariant 0 <= i <= |state.spells| && Valid()
        invariant view.Spells() == SpellsView(state.spells[..i])
        invariant view.Info() == old(view.Info()) && view.playerCount == old(view.playerCount) && view.entityCount == old(view.entityCount)
      {
        view.SetSpell(SpellRow(state.spells[i]));
        assert state.spells[..i + 1][..i] == state.spells[..i];
        i := i + 1;
      }
      assert state.spells[..i] == state.spells;
    }

    /** The fourth loop of sync_arena_state: the first entity with the user's symbol, or -1. */
    method FindCurrentPlayer() returns (j: int)
      ensures j == FirstWithSymbol(state.entities, ByteOf(state.playerSymbol))
    {
      j := EntityOf(ByteOf(state.playerSymbol));
    }

    /** SERVER_MSG_VERSION: the version goes to the menu, and the client subscribes to the server's information. */
    method OnVersion(frame: seq<byte>, udpSocket: int) returns (sent: seq<ClientSend>)
      requires Valid() && udpSocket >= -1 && |frame| >= HeaderSize && DecodeHeader(frame).messageType == ServerVersion
      modifies this, menu
      ensures Valid() && running == old(running)
      ensures state == StateAfter(old(state), frame, udpSocket)
      ensures sent == SendsFor(old(state).tcpFd, old(state).udpPort, frame, udpSocket)
      ensures menu.Status() == MenuAfter(old(menu.Status()), old(state), frame)
      ensures menu.ServerAddr() == old(menu.ServerAddr()) && menu.cursorPos == old(menu.cursorPos) && menu.character == old(menu.character)
      ensures view.Info() == ViewAfter(old(view.Info()), old(state), frame)
      ensures view.Players() == old(view.Players()) && view.Entities() == old(view.Entities()) && view.Spells() == old(view.Spells())
    {
      var (version, compatible) := VersionReply(frame[HeaderSize..]);
      menu.SetVersionInfo(version, compatible);
      sent := TcpSends(state.tcpFd, SubscribeInfoFrame);
    }

    /** SERVER_MSG_STATIC_INFO: the settings go to the state, the menu and the view, and the client is back in the menu. */
    method OnStaticInfo(frame: seq<byte>, udpSocket: int) returns (sent: seq<ClientSend>)
      requires Valid() && udpSocket >= -1 && |frame| >= HeaderSize && DecodeHeader(frame).messageType == ServerStaticInfo
      modifies this, menu, view
      ensures Valid() && running == old(running)
      ensures state == StateAfter(old(state), frame, udpSocket)
      ensures sent == SendsFor(old(state).tcpFd, old(state).udpPort, frame, udpSocket)
      ensures menu.Status() == MenuAfter(old(menu.Status()), old(state), frame)
      ensures menu.ServerAddr() == old(menu.ServerAddr()) && menu.cursorPos == old(menu.cursorPos) && menu.character == old(menu.character)
      ensures view.Info() == ViewAfter(old(view.Info()), old(state), frame)
      ensures view.Players() == old(view.Players()) && view.Entities() == old(view.Entities()) && view.Spells() == old(view.Spells())
    {
      var info := DecodeStaticInfo(frame[HeaderSize..]);
      state := state.(udpPort := info.0, mapSize := info.1, winnerPoints := info.2, maxPlayers := info.3);
      menu.SetServerInfo(state.udpPort, state.mapSize, state.winnerPoints, state.maxPlayers);
      view.mapSize := state.mapSize;
      view.winnerPoints := state.winnerPoints;
      state := WithState(state, MenuScreen);
      sent := [];
    }

    /** SERVER_MSG_DYNAMIC_INFO: the player count, then the symbols of at most MAX_PLAYERS players, copied to the menu. */
    method OnDynamicInfo(frame: seq<byte>, udpSocket: int) returns (sent: seq<ClientSend>)
      requires Valid() && udpSocket >= -1 && |frame| >= HeaderSize && DecodeHeader(frame).messageType == ServerDynamicInfo
      modifies this, menu
      ensures Valid() && running == old(running)
      ensures state == StateAfter(old(state), frame, udpSocket)
      ensures sent == SendsFor(old(state).tcpFd, old(state).udpPort, frame, udpSocket)
      ensures menu.Status() == MenuAfter(old(menu.Status()), old(state), frame)
      ensures menu.ServerAddr() == old(menu.ServerAddr()) && menu.cursorPos == old(menu.cursorPos) && menu.character == old(menu.character)
      ensures view.Info() == ViewAfter(old(view.Info()), old(state), frame)
      ensures view.Players() == old(view.Players()) && view.Entities() == old(view.Entities()) && view.Spells() == old(view.Spells())
    {
      var p := frame[HeaderSize..];
      state := state.(playerCount := At(p, 0));
      var cells := state.players;
      var i := 0;
      while i < state.playerCount && i < MaxPlayers
        invariant 0 <= i <= Min(state.playerCount, MaxPlayers) && |cells| == MaxPlayers
        invariant forall k :: 0 <= k < MaxPlayers ==> cells[k] == if k < i then CharOf(At(p, 1 + k)) else old(state).players[k]
      {
        cells := cells[i := CharOf(At(p, 1 + i))];
        i := i + 1;
      }
      assert cells == SymbolsAfter(old(state).players, p);
      state := state.(players := cells);
      menu.SetPlayers(state.players, state.playerCount);
      sent := [];
    }

    /** SERVER_MSG_LOGIN_STATUS: the token is kept; a success waits, opens the UDP socket and sends the token over it; every known status reaches the menu. */
    method OnLoginStatus(frame: seq<byte>, udpSocket: int) returns (sent: seq<ClientSend>)
      requires Valid() && udpSocket >= -1 && |frame| >= HeaderSize && DecodeHeader(frame).messageType == ServerLoginStatus
      modifies this, menu
      ensures Valid() && running == old(running)
      ensures state == StateAfter(old(state), frame, udpSocket)
      ensures sent == SendsFor(old(state).tcpFd, old(state).udpPort, frame, udpSocket)
      ensures menu.Status() == MenuAfter(old(menu.Status()), old(state), frame)
      ensures menu.ServerAddr() == old(menu.ServerAddr()) && menu.cursorPos == old(menu.cursorPos) && menu.character == old(menu.character)
      ensures view.Info() == ViewAfter(old(view.Info()), old(state), frame)
      ensures view.Players() == old(view.Players()) && view.Entities() == old(view.Entities()) && view.Spells() == old(view.Spells())
    {
      LoginStatusFrame(state, frame, udpSocket);
      var (symbol, status, token) := DecodeLoginStatus(frame[HeaderSize..]);
      state := state.(sessionToken := token);
      var shown := LoginStatusFor(status);
      if shown.Some? {
        menu.SetLoginStatus(shown.value);
      }
      sent := [];
      if status == LoginOk {
        state := WithState(state, Waiting);
        state := state.(udpFd := udpSocket);
        var n := EncodeConnectUdp(state.sessionToken);
        if udpSocket >= 0 {
          sent := [UdpOut(state.udpPort, n)];
        }
      }
    }

    /** SERVER_MSG_UDP_CONNECTED: UDP is confirmed in the state and the menu, and the client answers that it trusts it. */
    method OnUdpConnected(frame: seq<byte>, udpSocket: int) returns (sent: seq<ClientSend>)
      requires Valid() && udpSocket >= -1 && |frame| >= HeaderSize && DecodeHeader(frame).messageType == ServerUdpConnected
      modifies this, menu
      ensures Valid() && running == old(running)
      ensures state == StateAfter(old(state), frame, udpSocket)
      ensures sent == SendsFor(old(state).tcpFd, old(state).udpPort, frame, udpSocket)
      ensures menu.Status() == MenuAfter(old(menu.Status()), old(state), frame)
      ensures menu.ServerAddr() == old(menu.ServerAddr()) && menu.cursorPos == old(menu.cursorPos) && menu.character == old(menu.character)
      ensures view.Info() == ViewAfter(old(view.Info()), old(state), frame)
      ensures view.Players() == old(view.Players()) && view.Entities() == old(view.Entities()) && view.Spells() == old(view.Spells())
    {
      state := state.(udpConnected := true);
      menu.SetUdpConfirmed(1);
      sent := TcpSends(state.tcpFd, TrustUdpFrame);
    }

    /** SERVER_MSG_START_GAME: playing, with no winner shown and no countdown running. */
    method OnStartGame(frame: seq<byte>, udpSocket: int) returns (sent: seq<ClientSend>)
      requires Valid() && udpSocket >= -1 && |frame| >= HeaderSize && DecodeHeader(frame).messageType == ServerStartGame
      modifies this, view
      ensures Valid() && running == old(running)
      ensures state == StateAfter(old(state), frame, udpSocket)
      ensures sent == SendsFor(old(state).tcpFd, old(state).udpPort, frame, udpSocket)
      ensures menu.Status() == MenuAfter(old(menu.Status()), old(state), frame)
      ensures menu.ServerAddr() == old(menu.ServerAddr()) && menu.cursorPos == old(menu.cursorPos) && menu.character == old(menu.character)
      ensures view.Info() == ViewAfter(old(view.Info()), old(state), frame)
      ensures view.Players() == old(view.Players()) && view.Entities() == old(view.Entities()) && view.Spells() == old(view.Spells())
    {
      state := WithState(state, Playing);
      view.gameFinished := false;
      view.nextArenaCountdown := -1;
      sent := [];
    }

    /** SERVER_MSG_FINISH_GAME: the winner is kept and shown, and the game is over. */
    method OnFinishGame(frame: seq<byte>, udpSocket: int) returns (sent: seq<ClientSend>)
      requires Valid() && udpSocket >= -1 && |frame| >= HeaderSize && DecodeHeader(frame).messageType == ServerFinishGame
      modifies this, view
      ensures Valid() && running == old(running)
      ensures state == StateAfter(old(state), frame, udpSocket)
      ensures sent == SendsFor(old(state).tcpFd, old(state).udpPort, frame, udpSocket)
      ensures menu.Status() == MenuAfter(old(menu.Status()), old(state), frame)
      ensures menu.ServerAddr() == old(menu.ServerAddr()) && menu.cursorPos == old(menu.cursorPos) && menu.character == old(menu.character)
      ensures view.Info() == ViewAfter(old(view.Info()), old(state), frame)
      ensures view.Players() == old(view.Players()) && view.Entities() == old(view.Entities()) && view.Spells() == old(view.Spells())
    {
      state := state.(winner := CharOf(At(frame[HeaderSize..], 0)));
      state := WithState(state, GameOver);
      view.SetGameFinished(state.winner);
      sent := [];
    }

    /** SERVER_MSG_WAIT_ARENA: the seconds to wait, shown in the view with the survivor of the arena and in the menu. */
    method OnWaitArena(frame: seq<byte>, udpSocket: int) returns (sent: seq<ClientSend>)
      requires Valid() && udpSocket >= -1 && |frame| >= HeaderSize && DecodeHeader(frame).messageType == ServerWaitArena
      modifies this, menu, view
      ensures Valid() && running == old(running)
      ensures state == StateAfter(old(state), frame, udpSocket)
      ensures sent == SendsFor(old(state).tcpFd, old(state).udpPort, frame, udpSocket)
      ensures menu.Status() == MenuAfter(old(menu.Status()), old(state), frame)
      ensures menu.ServerAddr() == old(menu.ServerAddr()) && menu.cursorPos == old(menu.cursorPos) && menu.character == old(menu.character)
      ensures view.Info() == ViewAfter(old(view.Info()), old(state), frame)
      ensures view.Players() == old(view.Players()) && view.Entities() == old(view.Entities()) && view.Spells() == old(view.Spells())
    {
      var secs := ReadU16(frame[HeaderSize..], 0);
      state := state.(waitSeconds := secs);
      var survivor := FindSurvivor();
      view.SetNextArena(secs, survivor);
      menu.SetCountdown(secs);
      sent := [];
    }

    /** SERVER_MSG_GAME_STEP: the records the arrays can hold, then the arena view rebuilt from them. */
    method OnGameStep(frame: seq<byte>, udpSocket: int, now: int) returns (sent: seq<ClientSend>)
      requires Valid() && udpSocket >= -1 && |frame| >= HeaderSize && DecodeHeader(frame).messageType == ServerGameStep
      modifies this, view, view.players, view.entities, view.spells
      ensures Valid() && running == old(running)
      ensures state == StateAfter(old(state), frame, udpSocket)
      ensures sent == SendsFor(old(state).tcpFd, old(state).udpPort, frame, udpSocket)
      ensures menu.Status() == MenuAfter(old(menu.Status()), old(state), frame)
      ensures menu.ServerAddr() == old(menu.ServerAddr()) && menu.cursorPos == old(menu.cursorPos) && menu.character == old(menu.character)
      ensures view.Info() == ViewAfter(old(view.Info()), old(state), frame)
      ensures view.Players() == PlayerRows(state.playerData, state.entities, state.playerSymbol)
      ensures view.Entities() == EntityRows(state.entities)
      ensures view.Spells() == SpellsView(state.spells)
    {
      GameStepOutcome(state, menu.Status(), view.Info(), frame, udpSocket);
      var d := DecodeGameStepCapped(frame[HeaderSize..], DecodeHeader(frame).dataLength);
      state := state.(entities := d.entities, spells := d.spells, playerData := d.players);
      SyncArenaState(now);
      sent := [];
    }

    /** The loop of SERVER_MSG_WAIT_ARENA: the symbol of the first entity still alive, or NUL. */
    method FindSurvivor() returns (survivor: char)
      ensures survivor == Survivor(state.entities)
    {
      survivor := '\0';
      var i := 0;
      while i < |state.entities|
        invariant 0 <= i <= |state.entities|
        invariant Survivor(state.entities) == Survivor(state.entities[i..])
      {
        assert state.entities[i..][1..] == state.entities[i + 1..];
        if state.entities[i].health > 0 {
          survivor := CharOf(state.entities[i].symbol);
          return;
        }
        i := i + 1;
      }
    }

    /**
     * handle_single_packet: a frame shorter than a header is ignored;
     * otherwise the message type picks what changes in the state, the menu
     * and the view, and what is sent back.  Only a game step touches the
     * view's tables, which it rebuilds from the records received.
     */
    method HandlePacket(frame: seq<byte>, udpSocket: int, now: int) returns (sent: seq<ClientSend>)
      requires Valid() && udpSocket >= -1
      modifies this, menu, view, view.players, view.entities, view.spells
      ensures Valid() && running == old(running)
      ensures state == StateAfter(old(state), frame, udpSocket)
      ensures sent == SendsFor(old(state).tcpFd, old(state).udpPort, frame, udpSocket)
      ensures menu.Status() == MenuAfter(old(menu.Status()), old(state), frame)
      ensures menu.ServerAddr() == old(menu.ServerAddr()) && menu.cursorPos == old(menu.cursorPos) && menu.character == old(menu.character)
      ensures view.Info() == ViewAfter(old(view.Info()), old(state), frame)
      ensures IsGameStep(frame) ==>
        view.Players() == PlayerRows(state.playerData, state.entities, state.playerSymbol)
        && view.Entities() == EntityRows(state.entities) && view.Spells() == SpellsView(state.spells)
      ensures !IsGameStep(frame) ==>
        view.Players() == old(view.Players()) && view.Entities() == old(view.Entities()) && view.Spells() == old(view.Spells())
    {
      if |frame| < HeaderSize {
        return [];
      }
      var t := DecodeHeader(frame).messageType;
      if t == ServerVersion {
        sent := OnVersion(frame, udpSocket);
      } else if t == ServerStaticInfo {
        sent := OnStaticInfo(frame, udpSocket);
      } else if t == ServerDynamicInfo {
        sent := OnDynamicInfo(frame, udpSocket);
      } else if t == ServerLoginStatus {
        sent := OnLoginStatus(frame, udpSocket);
      } else if t == ServerUdpConnected {
        sent := OnUdpConnected(frame, udpSocket);
      } else if t == ServerStartGame {
        sent := OnStartGame(frame, udpSocket);
      } else if t == ServerFinishGame {
        sent := OnFinishGame(frame, udpSocket);
      } else if t == ServerWaitArena {
        sent := OnWaitArena(frame, udpSocket);
      } else if t == ServerGameStep {
        sent := OnGameStep(frame, udpSocket, now);
      } else {
        sent := [];
      }
    }

    /**
     * The invariant of process_tcp_buffer's loop: the state (but for its
     * buffer), the sends, the menu and the view are those after handling
     * the frames so far, one after another, from the starting ones.
     */
    ghost predicate Processed(s0: ClientState, m0: Menus.MenuStatus, v0: ViewInfo, p0: seq<ArenaPlayer>,
                              e0: seq<ArenaEntity>, sp0: seq<ArenaSpell>, handled: seq<seq<byte>>,
                              sent: seq<ClientSend>, udpSocket: int)
      reads this, menu, menu.address, view, view.players, view.entities, view.spells
    {
      && Valid() && WellFormed(s0) && |m0.loggedPlayers| == Menus.MaxWaitingRoomPlayers && udpSocket >= -1
      && state == Run(s0, handled, udpSocket).0.(buffer := state.buffer)
      && sent == Run(s0, handled, udpSocket).1
      && menu.Status() == MenuRun(m0, s0, handled, udpSocket)
      && view.Info() == ViewRun(v0, s0, handled, udpSocket)
      && (AnyGameStep(handled) ==>
            view.Players() == PlayerRows(state.playerData, state.entities, state.playerSymbol)
            && view.Entities() == EntityRows(state.entities) && view.Spells() == SpellsView(state.spells))
      && (!AnyGameStep(handled) ==> view.Players() == p0 && view.Entities() == e0 && view.Spells() == sp0)
    }

    /** The client's state, the menu's status, the view's fields and the sends are those of screen c. */
    ghost predicate Shows(c: Screen, sent: seq<ClientSend>)
      reads this, menu, menu.address, view
    {
      state == c.state && menu.Status() == c.menu && view.Info() == c.view && sent == c.sent
    }

    /** One turn of process_tcp_buffer's loop: the leading frame is handled and removed from the buffer. */
    method HandleNext(ghost s0: ClientState, ghost m0: Menus.MenuStatus, ghost v0: ViewInfo, ghost p0: seq<ArenaPlayer>,
                      ghost e0: seq<ArenaEntity>, ghost sp0: seq<ArenaSpell>, ghost handled: seq<seq<byte>>,
                      sent0: seq<ClientSend>, udpSocket: int, now: int)
      returns (sent: seq<ClientSend>, frame: seq<byte>)
      requires Processed(s0, m0, v0, p0, e0, sp0, handled, sent0, udpSocket) && Complete(state.buffer)
      modifies this, menu, view, view.players, view.entities, view.spells
      ensures Processed(s0, m0, v0, p0, e0, sp0, handled + [frame], sent, udpSocket)
      ensures Frames(old(state.buffer)) == [frame] + Frames(state.buffer) && Rest(old(state.buffer)) == Rest(state.buffer)
      ensures |state.buffer| < |old(state.buffer)|
      ensures running == old(running)
      ensures menu.ServerAddr() == old(menu.ServerAddr()) && menu.cursorPos == old(menu.cursorPos) && menu.character == old(menu.character)
    {
      var size := FrameSize(state.buffer);
      frame := state.buffer[..size];
      FramesCut(state.buffer);
      sent := HandleFrame(s0, m0, v0, p0, e0, sp0, handled, sent0, frame, udpSocket, now);
      DropFrame(s0, m0, v0, p0, e0, sp0, handled + [frame], sent, size, udpSocket);
    }

    /** The frame at the front of the buffer handled, the buffer itself left as it is. */
    method HandleFrame(ghost s0: ClientState, ghost m0: Menus.MenuStatus, ghost v0: ViewInfo, ghost p0: seq<ArenaPlayer>,
                       ghost e0: seq<ArenaEntity>, ghost sp0: seq<ArenaSpell>, ghost handled: seq<seq<byte>>,
                       sent0: seq<ClientSend>, frame: seq<byte>, udpSocket: int, now: int)
      returns (sent: seq<ClientSend>)
      requires Processed(s0, m0, v0, p0, e0, sp0, handled, sent0, udpSocket)
      requires |state.buffer| <= ClientBufferSize
      modifies this, menu, view, view.players, view.entities, view.spells
      ensures Processed(s0, m0, v0, p0, e0, sp0, handled + [frame], sent, udpSocket)
      ensures state.buffer == old(state.buffer) && running == old(running)
      ensures menu.ServerAddr() == old(menu.ServerAddr()) && menu.cursorPos == old(menu.cursorPos) && menu.character == old(menu.character)
    {
      StepFolds(s0, m0, v0, handled, frame, state.buffer, udpSocket);
      var out := HandlePacket(frame, udpSocket, now);
      sent := sent0 + out;
    }

    /** The first size bytes of the buffer dropped; nothing the frames did changes. */
    method DropFrame(ghost s0: ClientState, ghost m0: Menus.MenuStatus, ghost v0: ViewInfo, ghost p0: seq<ArenaPlayer>,
                     ghost e0: seq<ArenaEntity>, ghost sp0: seq<ArenaSpell>, ghost handled: seq<seq<byte>>,
                     sent: seq<ClientSend>, size: int, udpSocket: int)
      requires Processed(s0, m0, v0, p0, e0, sp0, handled, sent, udpSocket) && 0 <= size <= |state.buffer|
      modifies this
      ensures Processed(s0, m0, v0, p0, e0, sp0, handled, sent, udpSocket)
      ensures state.buffer == old(state.buffer)[size..] && running == old(running)
    {
      state := state.(buffer := state.buffer[size..]);
    }

    /**
     * process_tcp_buffer: while the buffer starts with a whole frame, the
     * frame is handled and removed.  The frames handled are `Frames` of the
     * buffer, in order; what stays is `Rest`; the state, the sends, the
     * menu and the view are those frames handled one after another.
     */
    method ProcessTcpBuffer(udpSocket: int, now: int) returns (sent: seq<ClientSend>)
      requires Valid() && udpSocket >= -1
      modifies this, menu, view, view.players, view.entities, view.spells
      ensures Processed(old(state), old(menu.Status()), old(view.Info()), old(view.Players()),
                        old(view.Entities()), old(view.Spells()), Frames(old(state.buffer)), sent, udpSocket)
      ensures state.buffer == Rest(old(state.buffer)) && running == old(running)
      ensures menu.ServerAddr() == old(menu.ServerAddr()) && menu.cursorPos == old(menu.cursorPos) && menu.character == old(menu.character)
    {
      sent := [];
      ghost var handled: seq<seq<byte>> := [];
      ghost var s0, m0, v0 := state, menu.Status(), view.Info();
      ghost var p0, e0, sp0 := view.Players(), view.Entities(), view.Spells();
      while |state.buffer| >= HeaderSize
        invariant Processed(s0, m0, v0, p0, e0, sp0, handled, sent, udpSocket)
        invariant Frames(s0.buffer) == handled + Frames(state.buffer)
        invariant Rest(s0.buffer) == Rest(state.buffer)
        invariant running == old(running)
        invariant menu.ServerAddr() == old(menu.ServerAddr()) && menu.cursorPos == old(menu.cursorPos) && menu.character == old(menu.character)
        decreases |state.buffer|
      {
        if |state.buffer| < FrameSize(state.buffer) {
          break;
        }
        ghost var before := state.buffer;
        var frame;
        sent, frame := HandleNext(s0, m0, v0, p0, e0, sp0, handled, sent, udpSocket, now);
        FramesStep(s0.buffer, handled, before, frame, state.buffer);
        handled := handled + [frame];
      }
      FramesDone(s0.buffer, handled, state.buffer);
    }

    // -------------------------------------------------------------------
    // Connecting, logging out and the keyboard
    // -------------------------------------------------------------------

    /** The menu's text fields and focus stay as they were. */
    twostate predicate MenuFieldsKept()
      reads this, menu, menu.address
    {
      && menu.ServerAddr() == old(menu.ServerAddr()) && menu.cursorPos == old(menu.cursorPos)
      && menu.character == old(menu.character)
      && menu.addressFocus == old(menu.addressFocus) && menu.characterFocus == old(menu.characterFocus)
    }

    /**
     * client_app_disconnect: a logout frame when the TCP socket is open,
     * then client_state_reset, which closes both sockets and returns to
     * the menu.
     */
    method Disconnect() returns (sent: seq<ClientSend>)
      requires Valid()
      modifies this
      ensures Valid() && running == old(running)
      ensures state == ResetOf(old(state)) && state.tcpFd == -1 && state.udpFd == -1
      ensures sent == TcpSends(old(state).tcpFd, LogoutFrame)
    {
      sent := TcpSends(state.tcpFd, LogoutFrame);
      state := ResetOf(state);
    }

    /**
     * The logout branches of client_app_handle_input: disconnect, mark the
     * player not logged in when forgetLogin, the menu not connected, and
     * the state back to the menu.
     */
    method LogOut(forgetLogin: bool) returns (sent: seq<ClientSend>)
      requires Valid()
      modifies this, menu
      ensures Valid() && MenuFieldsKept()
      ensures var e := LoggedOut(old(state), old(menu.Status()), old(running));
        state == e.state && menu.Status() == e.menu && sent == e.sent && running == e.running
    {
      sent := Disconnect();
      if forgetLogin {
        menu.SetLoginStatus(Menus.NotLogged);
      }
      menu.SetConnectionStatus(Menus.NotConnected);
      var reset := state;
      state := WithState(state, MenuScreen);
      assert state == reset.(state := MenuScreen) == reset;
    }

    /** client_app_connect, with the system's answers given as outcome; returns 0 when connected and -1 otherwise. */
    method Connect(outcome: ConnectOutcome) returns (result: int, sent: seq<ClientSend>)
      requires Valid()
      modifies this, menu
      ensures Valid() && MenuFieldsKept()
      ensures var e := ConnectAfter(old(state), old(menu.Status()), old(running), outcome);
        state == e.state && menu.Status() == e.menu && sent == e.sent && running == e.running
      ensures result == (if sent != [] then 0 else -1)
    {
      state := WithState(state, Connecting);
      menu.SetConnectionStatus(Menus.Connecting);
      if outcome.fd < 0 {
        NoSocket();
        return -1, [];
      }
      state := state.(tcpFd := outcome.fd);
      result, sent := Establish(outcome);
    }

    /** The branch of client_app_connect where socket_tcp_create fails: disconnected, the server not found. */
    method NoSocket()
      requires Valid()
      modifies this, menu
      ensures Valid() && MenuFieldsKept() && running == old(running)
      ensures state == old(state).(state := Disconnected, tcpFd := -1)
      ensures menu.Status() == Menus.WithConnection(old(menu.Status()), Menus.NotFound)
    {
      state := state.(tcpFd := -1);
      state := WithState(state, Disconnected);
      menu.SetConnectionStatus(Menus.NotFound);
    }

    /** client_app_connect from socket_connect on, the socket being open. */
    method Establish(outcome: ConnectOutcome) returns (result: int, sent: seq<ClientSend>)
      requires Valid() && state.tcpFd >= 0
      modifies this, menu
      ensures Valid() && MenuFieldsKept()
      ensures var e := OpenedAfter(old(state), old(menu.Status()), old(running), outcome);
        state == e.state && menu.Status() == e.menu && sent == e.sent && running == e.running
      ensures result == (if sent != [] then 0 else -1)
    {
      if !outcome.connects {
        GiveUpConnecting();
        return -1, [];
      }
      menu.SetConnectionStatus(Menus.Connected);
      if !outcome.writable {
        GiveUpConnecting();
        return -1, [];
      }
      sent := TcpSends(state.tcpFd, EncodeVersion(ProtocolVersionText));
      result := 0;
    }

    /** The failure branches of client_app_connect once a socket is open: it is closed, the client is back in the menu and the server not found. */
    method GiveUpConnecting()
      requires Valid()
      modifies this, menu
      ensures Valid() && MenuFieldsKept() && running == old(running)
      ensures state == old(state).(state := MenuScreen, tcpFd := CloseFd(old(state).tcpFd))
      ensures menu.Status() == Menus.WithConnection(old(menu.Status()), Menus.NotFound)
    {
      state := state.(tcpFd := CloseFd(state.tcpFd));
      state := WithState(state, MenuScreen);
      menu.SetConnectionStatus(Menus.NotFound);
    }

    /** client_app_send_move: when the TCP socket is open, a move the server reads back as the direction's byte. */
    method SendMove(dir: int) returns (sent: seq<ClientSend>)
      ensures sent == TcpSends(state.tcpFd, EncodeMovePlayer(dir))
      ensures state.tcpFd >= 0 ==>
                |sent| == 1 && Framed(sent[0].bytes, ClientMovePlayer) && DecodeMovePlayer(Payload(sent[0].bytes)) == dir % 256
      ensures state.tcpFd < 0 ==> sent == []
    {
      if state.tcpFd < 0 {
        return [];
      }
      sent := [TcpOut(EncodeMovePlayer(dir))];
    }

    /** client_app_send_cast: when the TCP socket is open, a cast the server reads back as the direction's byte and the selected spell. */
    method SendCast(dir: int) returns (sent: seq<ClientSend>)
      ensures sent == TcpSends(state.tcpFd, EncodeCastSkill(dir, state.selectedSpellType))
      ensures state.tcpFd >= 0 ==>
                |sent| == 1 && Framed(sent[0].bytes, ClientCastSkill) && DecodeCastSkill(Payload(sent[0].bytes)) == (dir % 256, state.selectedSpellType)
      ensures state.tcpFd < 0 ==> sent == []
    {
      if state.tcpFd < 0 {
        return [];
      }
      sent := [TcpOut(EncodeCastSkill(dir, state.selectedSpellType))];
    }

    /** client_app_destroy: client_state_destroy closes both sockets and keeps the rest. */
    method Destroy()
      requires Valid()
      modifies this
      ensures Valid() && running == old(running)
      ensures state == Destroyed(old(state)) && state.tcpFd == -1 && state.udpFd == -1
    {
      state := Destroyed(state);
    }

    /** The menu and waiting states of client_app_handle_input, after the menu has seen the key and passed on unhandled. */
    method MenuCommand(unhandled: int, outcome: ConnectOutcome) returns (sent: seq<ClientSend>)
      requires Valid()
      modifies this, menu
      ensures Valid() && MenuFieldsKept()
      ensures var e := MenuCommandAfter(old(state), old(menu.Status()), old(running), unhandled,
                                        menu.ServerAddr(), menu.character, outcome);
        state == e.state && menu.Status() == e.menu && sent == e.sent && running == e.running
    {
      sent := [];
      if unhandled == Input.KeyEscape {
        sent := EscapeCommand();
      } else if unhandled == Input.KeyEnterAlt || unhandled == Input.KeyEnter {
        sent := EnterCommand(outcome);
      }
    }

    /** Escape in the menu and waiting states. */
    method EscapeCommand() returns (sent: seq<ClientSend>)
      requires Valid()
      modifies this, menu
      ensures Valid() && MenuFieldsKept()
      ensures var e := EscapeAfter(old(state), old(menu.Status()), old(running));
        state == e.state && menu.Status() == e.menu && sent == e.sent && running == e.running
    {
      sent := [];
      if menu.IsLogged() {
        sent := LogOut(true);
      } else if menu.IsConnected() {
        sent := LogOut(false);
      } else {
        running := false;
      }
    }

    /** Enter in the menu and waiting states: connect, or log in with the menu's character. */
    method EnterCommand(outcome: ConnectOutcome) returns (sent: seq<ClientSend>)
      requires Valid()
      modifies this, menu
      ensures Valid() && MenuFieldsKept()
      ensures var e := EnterAfter(old(state), old(menu.Status()), old(running), old(menu.ServerAddr()), old(menu.character), outcome);
        state == e.state && menu.Status() == e.menu && sent == e.sent && running == e.running
    {
      sent := [];
      if !menu.IsConnected() {
        var addr := menu.ServerAddr();
        CStrNoNul(addr);
        if |addr| > 0 {
          var (host, port) := ParseServerAddr(addr);
          state := state.(host := host, tcpPort := port);
          var _, out := Connect(outcome);
          sent := out;
        }
      } else if !menu.IsLogged() {
        var c := menu.character;
        if c != '\0' {
          state := state.(playerSymbol := c);
          sent := TcpSends(state.tcpFd, EncodeLogin(c));
        }
      }
    }

    /** The playing state of client_app_handle_input. */
    method PlayingKey(key: Input.Key) returns (sent: seq<ClientSend>)
      requires Valid()
      modifies this, menu
      ensures Valid() && MenuFieldsKept()
      ensures var e := PlayingKeyAfter(old(state), old(menu.Status()), old(running), key);
        state == e.state && menu.Status() == e.menu && sent == e.sent && running == e.running
    {
      if key == Input.KeyEscape || Input.IsQuitKey(key) {
        sent := LogOut(true);
      } else if Input.IsSpell1Key(key) {
        state := state.(selectedSpellType := 1);
        sent := [];
      } else if Input.IsSpell2Key(key) {
        state := state.(selectedSpellType := 2);
        sent := [];
      } else if Input.IsActionKey(key) {
        sent := SendCast(state.lastDirection);
      } else {
        var dir := Input.KeyToDirection(key);
        sent := [];
        if dir != Directions.None {
          state := state.(lastDirection := dir);
          sent := SendMove(dir);
        }
      }
    }

    /**
     * client_app_handle_input: in the menu and waiting states the menu
     * edits its fields with the key first (menu_handle_key) and the key it
     * passes on is the command; in the game-over state a confirmation also
     * clears the arena view's finished flag.  outcome is what the system
     * answers should the key start a connection.
     */
    method HandleInput(key: Input.Key, outcome: ConnectOutcome) returns (sent: seq<ClientSend>)
      requires Valid()
      modifies this, menu, menu.address, view
      ensures Valid()
      ensures var e := InputAfter(old(state), old(menu.Status()), old(running), key,
                                  Menus.PassedKey(old(menu.addressFocus), old(menu.characterFocus),
                                                  old(menu.ServerAddr()), old(menu.cursorPos), key),
                                  menu.ServerAddr(), menu.character, outcome);
        state == e.state && menu.Status() == e.menu && sent == e.sent && running == e.running
      ensures old(state.state) != MenuScreen && old(state.state) != Waiting ==> MenuFieldsKept()
      ensures view.Info() == (if old(state.state) == GameOver && Input.IsConfirmKey(key)
                              then old(view.Info()).(gameFinished := false) else old(view.Info()))
      ensures view.playerCount == old(view.playerCount) && view.entityCount == old(view.entityCount)
        && view.spellCount == old(view.spellCount)
    {
      match state.state
      case MenuScreen =>
        sent := MenuKey(key, outcome);
      case Waiting =>
        sent := MenuKey(key, outcome);
      case Connecting =>
        sent := [];
        if key == Input.KeyEscape {
          sent := LogOut(false);
        }
      case Playing =>
        sent := PlayingKey(key);
      case GameOver =>
        sent := GameOverKey(key);
      case Disconnected =>
        sent := DisconnectedKey(key);
    }

    /** The menu and waiting states: menu_handle_key edits the menu's fields, then the key it passes on is the command. */
    method MenuKey(key: Input.Key, outcome: ConnectOutcome) returns (sent: seq<ClientSend>)
      requires Valid()
      modifies this, menu, menu.address
      ensures Valid()
      ensures var e := MenuCommandAfter(old(state), old(menu.Status()), old(running),
                                        Menus.PassedKey(old(menu.addressFocus), old(menu.characterFocus),
                                                        old(menu.ServerAddr()), old(menu.cursorPos), key),
                                        menu.ServerAddr(), menu.character, outcome);
        state == e.state && menu.Status() == e.menu && sent == e.sent && running == e.running
    {
      var unhandled := menu.HandleKey(key);
      sent := MenuCommand(unhandled, outcome);
    }

    /** The game-over state: a confirmation leaves the server and clears the arena view's finished flag. */
    method GameOverKey(key: Input.Key) returns (sent: seq<ClientSend>)
      requires Valid()
      modifies this, menu, view
      ensures Valid() && MenuFieldsKept()
      ensures Input.IsConfirmKey(key) ==>
        var e := LoggedOut(old(state), old(menu.Status()), old(running));
        state == e.state && menu.Status() == e.menu && sent == e.sent && running == e.running
        && view.Info() == old(view.Info()).(gameFinished := false)
      ensures !Input.IsConfirmKey(key) ==>
        state == old(state) && menu.Status() == old(menu.Status()) && sent == [] && running == old(running)
        && view.Info() == old(view.Info())
      ensures view.playerCount == old(view.playerCount) && view.entityCount == old(view.entityCount)
        && view.spellCount == old(view.spellCount)
    {
      sent := [];
      if Input.IsConfirmKey(key) {
        sent := LogOut(true);
        view.gameFinished := false;
      }
    }

    /** The disconnected state: Escape leaves the main loop; any other key returns to the menu, not connected. */
    method DisconnectedKey(key: Input.Key) returns (sent: seq<ClientSend>)
      requires Valid()
      modifies this, menu
      ensures Valid() && MenuFieldsKept() && sent == []
      ensures key == Input.KeyEscape ==> state == old(state) && menu.Status() == old(menu.Status()) && !running
      ensures key != Input.KeyEscape ==>
        state == WithState(old(state), MenuScreen) && running == old(running)
        && menu.Status() == Menus.WithConnection(old(menu.Status()), Menus.NotConnected)
    {
      sent := [];
      if key == Input.KeyEscape {
        running := false;
      } else {
        state := WithState(state, MenuScreen);
        menu.SetConnectionStatus(Menus.NotConnected);
      }
    }

    // -------------------------------------------------------------------
    // The network
    // -------------------------------------------------------------------

    /** The lost-connection branches of client_app_handle_network: disconnected, the socket left as it is, the connection shown lost. */
    method LoseConnection()
      requires Valid()
      modifies this, menu
      ensures Valid() && MenuFieldsKept() && running == old(running)
      ensures state == WithState(old(state), Disconnected) && state.tcpFd == old(state.tcpFd)
      ensures menu.Status() == Menus.WithConnection(old(menu.Status()), Menus.ConnectionLost)
    {
      state := WithState(state, Disconnected);
      menu.SetConnectionStatus(Menus.ConnectionLost);
    }

    /**
     * The TCP half of client_app_handle_network, with r the result of the
     * read: bytes that arrive are appended to the buffer and every whole
     * frame in it is handled (process_tcp_buffer); a closed connection or
     * a read error loses the connection.
     */
    method ReceiveTcp(r: Received, udpSocket: int, now: int) returns (sent: seq<ClientSend>)
      requires Valid() && udpSocket >= -1
      modifies this, menu, view, view.players, view.entities, view.spells
      ensures Valid() && running == old(running)
      ensures menu.ServerAddr() == old(menu.ServerAddr()) && menu.cursorPos == old(menu.cursorPos) && menu.character == old(menu.character)
      ensures Shows(AfterRead(Screen(old(state), old(menu.Status()), old(view.Info()), []), r, udpSocket), sent)
      ensures var t := ReadTcp(old(state.buffer), r);
        && (t.Got? && AnyGameStep(Frames(t.buffer)) ==>
              view.Players() == PlayerRows(state.playerData, state.entities, state.playerSymbol)
              && view.Entities() == EntityRows(state.entities) && view.Spells() == SpellsView(state.spells))
        && (!(t.Got? && AnyGameStep(Frames(t.buffer))) ==>
              view.Players() == old(view.Players()) && view.Entities() == old(view.Entities()) && view.Spells() == old(view.Spells()))
    {
      var t := ReadTcp(state.buffer, r);
      sent := [];
      if t.Got? {
        state := state.(buffer := t.buffer);
        sent := ProcessTcpBuffer(udpSocket, now);
      } else if t.Lost? {
        LoseConnection();
      }
    }

    /**
     * client_app_handle_network, with tcp the result of the TCP read when
     * the socket has data and udp the datagram waiting on the UDP socket:
     * nothing happens once disconnected; otherwise the TCP socket, when
     * open, is read first, and then a datagram, cut to the size of the
     * receive buffer, is handled as one message when the UDP socket is
     * open and the datagram is not empty.
     */
    method HandleNetwork(tcp: Option<Received>, udp: Option<seq<byte>>, udpSocket: int, now: int)
      returns (sent: seq<ClientSend>)
      requires Valid() && udpSocket >= -1
      modifies this, menu, view, view.players, view.entities, view.spells
      ensures Valid() && running == old(running)
      ensures menu.ServerAddr() == old(menu.ServerAddr()) && menu.cursorPos == old(menu.cursorPos) && menu.character == old(menu.character)
      ensures Shows(AfterNetwork(Screen(old(state), old(menu.Status()), old(view.Info()), []), tcp, udp, udpSocket), sent)
      ensures var c := TcpPhase(Screen(old(state), old(menu.Status()), old(view.Info()), []), tcp, udpSocket);
        var udpStep := old(state.state) != Disconnected && UdpTaken(c.state, udp) && IsGameStep(Datagram(udp.value));
        var tcpStep := old(state.state) != Disconnected && ReadsGameStep(old(state), tcp);
        && (udpStep ==>
              view.Players() == PlayerRows(state.playerData, state.entities, state.playerSymbol)
              && view.Entities() == EntityRows(state.entities) && view.Spells() == SpellsView(state.spells))
        && (!udpStep && tcpStep ==>
              view.Players() == PlayerRows(c.state.playerData, c.state.entities, c.state.playerSymbol)
              && view.Entities() == EntityRows(c.state.entities) && view.Spells() == SpellsView(c.state.spells))
        && (!udpStep && !tcpStep ==>
              view.Players() == old(view.Players()) && view.Entities() == old(view.Entities()) && view.Spells() == old(view.Spells()))
    {
      sent := [];
      if state.state == Disconnected {
        return;
      }
      if state.tcpFd >= 0 && tcp.Some? {
        sent := ReceiveTcp(tcp.value, udpSocket, now);
      }
      if state.udpFd >= 0 && udp.Some? && udp.value != [] {
        var datagram := udp.value[..Min(|udp.value|, MaxPacketSize)];
        var out := HandlePacket(datagram, udpSocket, now);
        sent := sent + out;
      }
    }
  }
}
