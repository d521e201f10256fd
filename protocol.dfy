/**
 * The wire protocol's vocabulary (net/protocol.h): message-type codes in
 * each direction, login status codes, the packed header and record
 * layouts with their sizes, and the largest packet either side builds.
 */
module Protocol {

  /** One octet on the wire. */
  type byte = b: int | 0 <= b < 256

  // Messages from client to server (ClientMessageType).
  const ClientVersion := 0
  const ClientSubscribeInfo := 1
  const ClientLogin := 2
  const ClientLogout := 3
  const ClientConnectUdp := 4
  const ClientTrustUdp := 5
  const ClientMovePlayer := 6
  const ClientCastSkill := 7

  // Messages from server to client (ServerMessageType).
  const ServerVersion := 0
  const ServerStaticInfo := 1
  const ServerDynamicInfo := 2
  const ServerLoginStatus := 3
  const ServerUdpConnected := 4
  const ServerStartGame := 5
  const ServerFinishGame := 6
  const ServerWaitArena := 7
  const ServerStartArena := 8
  const ServerGameStep := 9
  const ServerGameEvent := 10

  // LoginStatus.
  const LoginOk := 0
  const LoginInvalidChar := 1
  const LoginAlreadyUsed := 2
  const LoginRoomFull := 3

  /** The client's message codes in declaration order. */
  function ClientCodes(): (r: seq<int>)
    ensures forall i :: 0 <= i < |r| ==> r[i] == i
  {
    [ClientVersion, ClientSubscribeInfo, ClientLogin, ClientLogout,
     ClientConnectUdp, ClientTrustUdp, ClientMovePlayer, ClientCastSkill]
  }

  /** The server's message codes in declaration order. */
  function ServerCodes(): (r: seq<int>)
    ensures forall i :: 0 <= i < |r| ==> r[i] == i
  {
    [ServerVersion, ServerStaticInfo, ServerDynamicInfo, ServerLoginStatus,
     ServerUdpConnected, ServerStartGame, ServerFinishGame, ServerWaitArena,
     ServerStartArena, ServerGameStep, ServerGameEvent]
  }

  /** Sizes of the packed layouts: a type byte and a 16-bit length; 4+1+2+2+1+1+1+1; 4+2+2+1+1; 1+2. */
  const HeaderSize := 3
  const EntityDataSize := 13
  const SpellDataSize := 10
  const PlayerDataSize := 3

  const MaxPacketSize := 4096

  /** PacketHeader: the message type and the length of the data after the header. */
  datatype Header = Header(messageType: byte, dataLength: int)

  /** EntityData: id is an int32, the position int16 coordinates, the rest single bytes. */
  datatype EntityData = EntityData(
    id: int, symbol: byte, posX: int, posY: int,
    health: byte, energy: byte, direction: byte, spellType: byte)

  /** SpellData: id is an int32, the position int16 coordinates. */
  datatype SpellData = SpellData(id: int, posX: int, posY: int, direction: byte, spellType: byte)

  /** PlayerData: the symbol and the points as a uint16. */
  datatype PlayerData = PlayerData(symbol: byte, points: int)

  predicate IsInt16(v: int) { -0x8000 <= v < 0x8000 }
  predicate IsInt32(v: int) { -0x8000_0000 <= v < 0x8000_0000 }
  predicate IsUint16(v: int) { 0 <= v < 0x1_0000 }

  /** A record whose fields all fit their declared widths. */
  predicate EntityDataFits(d: EntityData)
  {
    IsInt32(d.id) && IsInt16(d.posX) && IsInt16(d.posY)
  }

  predicate SpellDataFits(d: SpellData)
  {
    IsInt32(d.id) && IsInt16(d.posX) && IsInt16(d.posY)
  }

  predicate PlayerDataFits(d: PlayerData)
  {
    IsUint16(d.points)
  }
}
