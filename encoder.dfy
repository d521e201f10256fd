/**
 * The message codec (net/encoder.c).  Every frame is a 3-byte header (the
 * message type, then the payload length as a little-endian 16-bit value)
 * followed by the payload.  Multi-byte payload fields are written in the
 * byte order of a little-endian host.
 *
 * Encoders are functions from the message's values to the frame's bytes.
 * Decoders take the bytes from the start of the payload; a byte the C code
 * would read beyond the bytes it was given reads as 0 here (see `At`).
 */
module Encoder {
  import opened Util
  import opened Protocol
  import opened Vectors
  import opened GridMap
  import opened Entities
  import opened Spells
  import opened Players

  // ---------------------------------------------------------------------
  // Bytes, characters and fixed-width integers
  // ---------------------------------------------------------------------

  /**
   * The byte at index i, or 0 where there is none: reads past the end of
   * a payload see zeros.
   */
  function At(s: seq<byte>, i: int): (b: byte)
    ensures 0 <= i < |s| ==> b == s[i]
    ensures !(0 <= i < |s|) ==> b == 0
  {
    if 0 <= i < |s| then s[i] else 0
  }

  /** n bytes starting at index i, read with `At`. */
  function Slice(s: seq<byte>, i: int, n: nat): (r: seq<byte>)
    ensures |r| == n && forall k :: 0 <= k < n ==> r[k] == At(s, i + k)
  {
    seq<byte>(n, k requires 0 <= k < n => At(s, i + k))
  }

  /**
   * A read inside the payload does not depend on what follows it in the
   * buffer: the zero padding of `At` only shows past the payload's end.
   */
  lemma {:induction false} AtIgnoresTail(s: seq<byte>, t: seq<byte>, i: int, n: nat)
    requires 0 <= i && i + n <= |s|
    ensures Slice(s + t, i, n) == Slice(s, i, n) == s[i..i + n]
  {
    assert forall k :: 0 <= k < n ==> Slice(s + t, i, n)[k] == s[i + k] == Slice(s, i, n)[k];
  }

  /** A C char stored as a uint8_t. */
  function ByteOf(c: char): byte
  {
    (c as int) % 256
  }

  /** A byte read back as a char. */
  function CharOf(b: byte): char
  {
    b as char
  }

  /** Characters whose codes fit in a byte: those a C char can hold. */
  predicate Narrow(s: seq<char>)
  {
    forall i :: 0 <= i < |s| ==> (s[i] as int) < 256
  }

  function BytesOf(s: seq<char>): (r: seq<byte>)
    ensures |r| == |s| && forall i :: 0 <= i < |s| ==> r[i] == ByteOf(s[i])
  {
    seq<byte>(|s|, i requires 0 <= i < |s| => ByteOf(s[i]))
  }

  function CharsOf(b: seq<byte>): (r: seq<char>)
    ensures |r| == |b| && forall i :: 0 <= i < |b| ==> r[i] == CharOf(b[i])
  {
    seq(|b|, i requires 0 <= i < |b| => CharOf(b[i]))
  }

  /** Narrow characters survive the trip through bytes. */
  lemma {:induction false} CharsOfBytesOf(s: seq<char>)
    requires Narrow(s)
    ensures CharsOf(BytesOf(s)) == s
  {
    assert forall i :: 0 <= i < |s| ==> CharOf(ByteOf(s[i])) == s[i];
  }

  /** The C conversion to int16_t: the value modulo 2^16, read as two's complement. */
  function Wrap16(v: int): (r: int)
    ensures IsInt16(r)
    ensures IsInt16(v) ==> r == v
    ensures (r - v) % 0x1_0000 == 0
  {
    var u := v % 0x1_0000;
    if u >= 0x8000 then u - 0x1_0000 else u
  }

  /** The C conversion to int32_t. */
  function Wrap32(v: int): (r: int)
    ensures IsInt32(r)
    ensures IsInt32(v) ==> r == v
    ensures (r - v) % 0x1_0000_0000 == 0
  {
    var u := v % 0x1_0000_0000;
    if u >= 0x8000_0000 then u - 0x1_0000_0000 else u
  }

  /** A 16-bit value, low byte first; int16_t and uint16_t share the layout. */
  function U16(v: int): (r: seq<byte>)
    ensures |r| == 2
    ensures ReadU16(r, 0) == v % 0x1_0000
    ensures ReadI16(r, 0) == Wrap16(v)
  {
    var u := v % 0x1_0000;
    [u % 256, u / 256]
  }

  /** A little-endian uint16 at index i. */
  function ReadU16(s: seq<byte>, i: int): (v: int)
    ensures IsUint16(v)
  {
    At(s, i) + 256 * At(s, i + 1)
  }

  /** A little-endian int16 at index i. */
  function ReadI16(s: seq<byte>, i: int): (v: int)
    ensures IsInt16(v)
  {
    Wrap16(ReadU16(s, i))
  }

  /** A 32-bit value, low byte first. */
  function I32(v: int): (r: seq<byte>)
    ensures |r| == 4
    ensures ReadI32(r, 0) == Wrap32(v)
  {
    var u := v % 0x1_0000_0000;
    Split32(u);
    [u % 256, u / 256 % 256, u / 0x1_0000 % 256, u / 0x100_0000]
  }

  lemma {:induction false} Split32(u: int)
    requires 0 <= u < 0x1_0000_0000
    ensures u / 0x100_0000 < 256
    ensures u == u % 256 + 256 * (u / 256 % 256) + 0x1_0000 * (u / 0x1_0000 % 256) + 0x100_0000 * (u / 0x100_0000)
  {
    assert u == u % 256 + 256 * (u / 256);
    assert u / 256 == u / 256 % 256 + 256 * (u / 0x1_0000);
    assert u / 0x1_0000 == u / 0x1_0000 % 256 + 256 * (u / 0x100_0000);
  }

  /** A little-endian int32 at index i. */
  function ReadI32(s: seq<byte>, i: int): (v: int)
    ensures IsInt32(v)
  {
    Wrap32(At(s, i) + 256 * At(s, i + 1) + 0x1_0000 * At(s, i + 2) + 0x100_0000 * At(s, i + 3))
  }

  /** A 16-bit field written anywhere in a frame reads back where it was written. */
  lemma {:induction false} U16At(s: seq<byte>, i: nat, v: int)
    requires i + 2 <= |s| && s[i..i + 2] == U16(v)
    ensures ReadU16(s, i) == v % 0x1_0000 && ReadI16(s, i) == Wrap16(v)
  {
    assert At(s, i) == At(U16(v), 0) && At(s, i + 1) == At(U16(v), 1);
  }

  /** A 32-bit field written anywhere in a frame reads back where it was written. */
  lemma {:induction false} I32At(s: seq<byte>, i: nat, v: int)
    requires i + 4 <= |s| && s[i..i + 4] == I32(v)
    ensures ReadI32(s, i) == Wrap32(v)
  {
    assert At(s, i) == At(I32(v), 0) && At(s, i + 1) == At(I32(v), 1);
    assert At(s, i + 2) == At(I32(v), 2) && At(s, i + 3) == At(I32(v), 3);
  }

  /** Two bytes read as an int16 are written back as the same two bytes. */
  lemma {:induction false} I16Bytes(s: seq<byte>, i: int)
    ensures U16(ReadI16(s, i)) == Slice(s, i, 2)
  {
    var u := ReadU16(s, i);
    var w := ReadI16(s, i);
    assert w % 0x1_0000 == u % 0x1_0000 by {
      assert w == u || w == u - 0x1_0000;
    }
    assert U16(w) == U16(u);
    U16Bytes(s, i);
  }

  /** Two bytes read as a uint16 are written back as the same two bytes. */
  lemma {:induction false} U16Bytes(s: seq<byte>, i: int)
    ensures U16(ReadU16(s, i)) == Slice(s, i, 2)
  {
    var lo, hi := At(s, i), At(s, i + 1);
    U16OfBytes(lo, hi);
    assert ReadU16(s, i) == lo as int + 256 * hi as int;
    var t := Slice(s, i, 2);
    assert t[0] == lo && t[1] == hi;
    assert t == [lo, hi];
  }

  /** Four bytes read as an int32 are written back as the same four bytes. */
  lemma {:induction false} I32Bytes(s: seq<byte>, i: int)
    ensures I32(ReadI32(s, i)) == Slice(s, i, 4)
  {
    var b0, b1, b2, b3 := At(s, i), At(s, i + 1), At(s, i + 2), At(s, i + 3);
    var c1, c2, c3: int := b1, b2, b3;
    var u := b0 + 256 * c1 + 0x1_0000 * c2 + 0x100_0000 * c3;
    var w := ReadI32(s, i);
    assert w % 0x1_0000_0000 == u by {
      assert w == u || w == u - 0x1_0000_0000;
    }
    Digits32(b0 as int, c1, c2, c3);
    var t := Slice(s, i, 4);
    assert t[0] == b0 && t[1] == b1 && t[2] == b2 && t[3] == b3;
    assert t == [b0, b1, b2, b3];
  }

  /** The base-256 digits of a 32-bit value are the bytes it was built from. */
  lemma {:induction false} Digits32(b0: int, b1: int, b2: int, b3: int)
    requires 0 <= b0 < 256 && 0 <= b1 < 256 && 0 <= b2 < 256 && 0 <= b3 < 256
    ensures var u := b0 + 256 * b1 + 0x1_0000 * b2 + 0x100_0000 * b3;
      u % 256 == b0 && u / 256 % 256 == b1 && u / 0x1_0000 % 256 == b2 && u / 0x100_0000 == b3
  {
    var u := b0 + 256 * b1 + 0x1_0000 * b2 + 0x100_0000 * b3;
    var q1, q2 := b1 + 256 * b2 + 0x1_0000 * b3, b2 + 256 * b3;
    assert u == b0 + 256 * q1 && u % 256 == b0 && u / 256 == q1;
    assert q1 == b1 + 256 * q2 && q1 % 256 == b1;
    assert u == (b0 + 256 * b1) + 0x1_0000 * q2 && u / 0x1_0000 == q2;
    assert q2 % 256 == b2;
    assert u == (b0 + 256 * b1 + 0x1_0000 * b2) + 0x100_0000 * b3 && u / 0x100_0000 == b3;
  }

  /** n + m bytes read from i are the n bytes at i followed by the m bytes after them. */
  lemma {:induction false} SliceSplit(s: seq<byte>, i: int, n: nat, m: nat)
    ensures Slice(s, i, n + m) == Slice(s, i, n) + Slice(s, i + n, m)
  {
    var a, b := Slice(s, i, n), Slice(s, i + n, m);
    forall k | 0 <= k < n + m
      ensures Slice(s, i, n + m)[k] == (a + b)[k]
    {
      if k >= n {
        assert (a + b)[k] == b[k - n];
      }
    }
  }

  /** Four equal bytes read as the same int32, wherever they sit. */
  lemma {:induction false} ReadI32Window(s: seq<byte>, i: nat, t: seq<byte>, j: nat)
    requires i + 4 <= |s| && j + 4 <= |t| && s[i..i + 4] == t[j..j + 4]
    ensures ReadI32(s, i) == ReadI32(t, j)
  {
    assert s[i] == t[j] && s[i + 1] == t[j + 1] && s[i + 2] == t[j + 2] && s[i + 3] == t[j + 3] by {
      assert s[i..i + 4][0] == t[j..j + 4][0] && s[i..i + 4][1] == t[j..j + 4][1];
      assert s[i..i + 4][2] == t[j..j + 4][2] && s[i..i + 4][3] == t[j..j + 4][3];
    }
  }

  // ---------------------------------------------------------------------
  // The header
  // ---------------------------------------------------------------------

  /** write_header: the type, then the length's low and high bytes. */
  function WriteHeader(messageType: byte, dataLength: int): (r: seq<byte>)
    ensures |r| == HeaderSize
    ensures DecodeHeader(r) == Header(messageType, dataLength % 0x1_0000)
  {
    [messageType] + U16(dataLength)
  }

  /** decode_packet_header */
  function DecodeHeader(s: seq<byte>): (h: Header)
    ensures IsUint16(h.dataLength)
  {
    Header(At(s, 0), ReadU16(s, 1))
  }

  /** Any three bytes are the header that decoding them finds. */
  lemma {:induction false} HeaderRoundTrip(s: seq<byte>)
    requires |s| >= HeaderSize
    ensures WriteHeader(DecodeHeader(s).messageType, DecodeHeader(s).dataLength) == s[..HeaderSize]
  {
    U16OfBytes(s[1], s[2]);
  }

  /** Two bytes read as a uint16 are written back as the same two bytes. */
  lemma {:induction false} U16OfBytes(lo: byte, hi: byte)
    ensures U16(lo + 256 * hi) == [lo, hi]
  {
    var v := lo + 256 * hi;
    assert v % 0x1_0000 == v;
    assert v % 256 == lo && v / 256 == hi;
  }

  /** A frame whose header names the type and the exact length of what follows it. */
  predicate Framed(r: seq<byte>, messageType: byte)
  {
    |r| >= HeaderSize && DecodeHeader(r) == Header(messageType, |r| - HeaderSize)
  }

  /** The payload of a frame. */
  function Payload(r: seq<byte>): seq<byte>
    requires |r| >= HeaderSize
  {
    r[HeaderSize..]
  }

  /** A header for the payload, then the payload: the shape every encoder returns. */
  function Frame(messageType: byte, payload: seq<byte>): (r: seq<byte>)
    ensures |r| == HeaderSize + |payload| && Payload(r) == payload
    ensures |payload| < 0x1_0000 ==> Framed(r, messageType)
  {
    var h := WriteHeader(messageType, |payload|);
    assert DecodeHeader(h + payload) == DecodeHeader(h) by {
      assert At(h + payload, 0) == At(h, 0) && At(h + payload, 1) == At(h, 1) && At(h + payload, 2) == At(h, 2);
    }
    h + payload
  }

  // ---------------------------------------------------------------------
  // Client to server
  // ---------------------------------------------------------------------

  /** The version text a frame carries: the C string, cut at 32 characters. */
  function VersionText(version: seq<char>): (t: seq<char>)
    ensures |t| <= 32 && '\0' !in t
    ensures |t| <= |CStr(version)| && t == CStr(version)[..|t|] && (|t| < 32 ==> t == CStr(version))
  {
    CStr(version)[..Min(|CStr(version)|, 32)]
  }

  /** encode_version: a length byte, then the text. */
  function EncodeVersion(version: seq<char>): (r: seq<byte>)
    ensures Framed(r, ClientVersion)
    ensures Payload(r) == [|VersionText(version)|] + BytesOf(VersionText(version))
  {
    var text := VersionText(version);
    Frame(ClientVersion, [|text|] + BytesOf(text))
  }

  /**
   * decode_version: the length byte, cut to max_len - 1 when it would not
   * fit (the cut is a uint8_t, so max_len 0 gives 255); returns the
   * characters and the bytes consumed.
   */
  function DecodeVersion(payload: seq<byte>, maxLen: nat): (r: (seq<char>, int))
    ensures r.1 == 1 + |r.0| && |r.0| < 256
    ensures 0 < maxLen <= 256 ==> |r.0| < maxLen
    ensures At(payload, 0) < maxLen ==> |r.0| == At(payload, 0)
  {
    var declared := At(payload, 0);
    var n := if declared >= maxLen then (maxLen - 1) % 256 else declared;
    (CharsOf(Slice(payload, 1, n)), 1 + n)
  }

  /** A version of narrow characters comes back whole when the reader has room for it. */
  lemma {:induction false} VersionRoundTrip(version: seq<char>, maxLen: nat)
    requires Narrow(VersionText(version)) && maxLen > |VersionText(version)|
    ensures DecodeVersion(Payload(EncodeVersion(version)), maxLen)
      == (VersionText(version), 1 + |VersionText(version)|)
  {
    var text := VersionText(version);
    var p := Payload(EncodeVersion(version));
    assert Slice(p, 1, |text|) == BytesOf(text);
    CharsOfBytesOf(text);
  }

  /** encode_subscribe_info: a header and nothing else. */
  function EncodeSubscribeInfo(): (r: seq<byte>)
    ensures Framed(r, ClientSubscribeInfo) && |r| == HeaderSize
  {
    Frame(ClientSubscribeInfo, [])
  }

  /** encode_login: the symbol as one byte. */
  function EncodeLogin(symbol: char): (r: seq<byte>)
    ensures Framed(r, ClientLogin) && |r| == HeaderSize + 1
    ensures (symbol as int) < 256 ==> DecodeLogin(Payload(r)) == symbol
  {
    Frame(ClientLogin, [ByteOf(symbol)])
  }

  /** decode_login: the symbol is a C char, and it is the payload's first byte (0 when there is none). */
  function DecodeLogin(payload: seq<byte>): (c: char)
    ensures (c as int) < 256 && ByteOf(c) == At(payload, 0)
  {
    CharOf(At(payload, 0))
  }

  /** encode_logout */
  function EncodeLogout(): (r: seq<byte>)
    ensures Framed(r, ClientLogout) && |r| == HeaderSize
  {
    Frame(ClientLogout, [])
  }

  /** encode_connect_udp: the session token as four bytes. */
  function EncodeConnectUdp(token: int): (r: seq<byte>)
    ensures Framed(r, ClientConnectUdp) && |r| == HeaderSize + 4
    ensures DecodeConnectUdp(Payload(r)) == Wrap32(token)
  {
    Frame(ClientConnectUdp, I32(token))
  }

  /** decode_connect_udp: an int32 token whose encoding is the payload's first four bytes. */
  function DecodeConnectUdp(payload: seq<byte>): (token: int)
    ensures IsInt32(token) && I32(token) == Slice(payload, 0, 4)
  {
    I32Bytes(payload, 0);
    ReadI32(payload, 0)
  }

  /** encode_trust_udp */
  function EncodeTrustUdp(): (r: seq<byte>)
    ensures Framed(r, ClientTrustUdp) && |r| == HeaderSize
  {
    Frame(ClientTrustUdp, [])
  }

  /** encode_move_player: the direction as a uint8_t, so DIR_NONE travels as 255. */
  function EncodeMovePlayer(dir: int): (r: seq<byte>)
    ensures Framed(r, ClientMovePlayer) && |r| == HeaderSize + 1
    ensures DecodeMovePlayer(Payload(r)) == dir % 256
  {
    Frame(ClientMovePlayer, [dir % 256])
  }

  /** decode_move_player: the payload's first byte, as a direction code. */
  function DecodeMovePlayer(payload: seq<byte>): (dir: int)
    ensures 0 <= dir < 256 && Slice(payload, 0, 1) == [dir as byte]
  {
    At(payload, 0)
  }

  /** encode_cast_skill: direction byte, then spell type byte. */
  function EncodeCastSkill(dir: int, spellType: byte): (r: seq<byte>)
    ensures Framed(r, ClientCastSkill) && |r| == HeaderSize + 2
    ensures DecodeCastSkill(Payload(r)) == (dir % 256, spellType)
  {
    Frame(ClientCastSkill, [dir % 256, spellType])
  }

  /** decode_cast_skill: the direction code and the spell type are the payload's first two bytes. */
  function DecodeCastSkill(payload: seq<byte>): (r: (int, byte))
    ensures 0 <= r.0 < 256 && Slice(payload, 0, 2) == [r.0 as byte, r.1]
  {
    (At(payload, 0), At(payload, 1))
  }

  // ---------------------------------------------------------------------
  // Server to client
  // ---------------------------------------------------------------------

  /** encode_version_response: a length byte, the text, then the compatibility byte. */
  function EncodeVersionResponse(version: seq<char>, compatible: int): (r: seq<byte>)
    ensures Framed(r, ServerVersion)
    ensures Payload(r) == [|VersionText(version)|] + BytesOf(VersionText(version)) + [compatible % 256]
  {
    var text := VersionText(version);
    Frame(ServerVersion, [|text|] + BytesOf(text) + [compatible % 256])
  }

  /** The client reads the response's text as decode_version does, and the byte after it as the answer. */
  lemma {:induction false} VersionResponseRoundTrip(version: seq<char>, compatible: int, maxLen: nat)
    requires Narrow(VersionText(version)) && maxLen > |VersionText(version)|
    ensures var p := Payload(EncodeVersionResponse(version, compatible));
      DecodeVersion(p, maxLen) == (VersionText(version), 1 + |VersionText(version)|)
      && At(p, 1 + |VersionText(version)|) == compatible % 256
  {
    var text := VersionText(version);
    var p := Payload(EncodeVersionResponse(version, compatible));
    assert Slice(p, 1, |text|) == BytesOf(text);
    CharsOfBytesOf(text);
  }

  /** encode_static_info: four uint16 values. */
  function EncodeStaticInfo(udpPort: int, mapSize: int, winnerPoints: int, maxPlayers: int): (r: seq<byte>)
    ensures Framed(r, ServerStaticInfo) && |r| == HeaderSize + 8
  {
    Frame(ServerStaticInfo, U16(udpPort) + U16(mapSize) + U16(winnerPoints) + U16(maxPlayers))
  }

  /** decode_static_info: four uint16 values whose encodings are the payload's first eight bytes. */
  function DecodeStaticInfo(payload: seq<byte>): (r: (int, int, int, int))
    ensures IsUint16(r.0) && IsUint16(r.1) && IsUint16(r.2) && IsUint16(r.3)
    ensures U16(r.0) + U16(r.1) + U16(r.2) + U16(r.3) == Slice(payload, 0, 8)
  {
    StaticInfoBytes(payload);
    (ReadU16(payload, 0), ReadU16(payload, 2), ReadU16(payload, 4), ReadU16(payload, 6))
  }

  lemma {:induction false} StaticInfoBytes(p: seq<byte>)
    ensures U16(ReadU16(p, 0)) + U16(ReadU16(p, 2)) + U16(ReadU16(p, 4)) + U16(ReadU16(p, 6)) == Slice(p, 0, 8)
  {
    U16Bytes(p, 0);
    U16Bytes(p, 2);
    U16Bytes(p, 4);
    U16Bytes(p, 6);
    SliceSplit(p, 0, 2, 2);
    SliceSplit(p, 0, 4, 2);
    SliceSplit(p, 0, 6, 2);
  }

  /** Each value comes back modulo 2^16, so values that fit a uint16 come back unchanged. */
  lemma {:induction false} StaticInfoRoundTrip(udpPort: int, mapSize: int, winnerPoints: int, maxPlayers: int)
    ensures DecodeStaticInfo(Payload(EncodeStaticInfo(udpPort, mapSize, winnerPoints, maxPlayers)))
      == (udpPort % 0x1_0000, mapSize % 0x1_0000, winnerPoints % 0x1_0000, maxPlayers % 0x1_0000)
  {
    var p := Payload(EncodeStaticInfo(udpPort, mapSize, winnerPoints, maxPlayers));
    U16At(p, 0, udpPort);
    U16At(p, 2, mapSize);
    U16At(p, 4, winnerPoints);
    U16At(p, 6, maxPlayers);
  }

  lemma Uint16Mod(v: int)
    requires IsUint16(v)
    ensures v % 0x1_0000 == v
  { }

  /** Values that fit a uint16 come back exactly. */
  lemma {:induction false} StaticInfoFits(udpPort: int, mapSize: int, winnerPoints: int, maxPlayers: int)
    requires IsUint16(udpPort) && IsUint16(mapSize) && IsUint16(winnerPoints) && IsUint16(maxPlayers)
    ensures DecodeStaticInfo(Payload(EncodeStaticInfo(udpPort, mapSize, winnerPoints, maxPlayers)))
      == (udpPort, mapSize, winnerPoints, maxPlayers)
  {
    Uint16Mod(udpPort);
    Uint16Mod(mapSize);
    Uint16Mod(winnerPoints);
    Uint16Mod(maxPlayers);
    StaticInfoRoundTrip(udpPort, mapSize, winnerPoints, maxPlayers);
  }

  /** encode_dynamic_info: a count byte, then that many symbols. */
  function EncodeDynamicInfo(symbols: seq<char>, count: int): (r: seq<byte>)
    requires 0 <= count <= |symbols|
    ensures |r| == HeaderSize + 1 + count
    ensures count < 0xFFFF ==> Framed(r, ServerDynamicInfo)
    ensures Payload(r)[0] == count % 256 && Payload(r)[1..] == BytesOf(symbols[..count])
  {
    Frame(ServerDynamicInfo, [count % 256] + BytesOf(symbols[..count]))
  }

  /** encode_login_status: symbol byte, status byte, then the token as four bytes. */
  function EncodeLoginStatus(symbol: char, status: int, token: int): (r: seq<byte>)
    ensures Framed(r, ServerLoginStatus) && |r| == HeaderSize + 6
    ensures DecodeLoginStatus(Payload(r)) == (CharOf(ByteOf(symbol)), status % 256, Wrap32(token))
  {
    var payload := [ByteOf(symbol), status % 256] + I32(token);
    I32At(payload, 2, token);
    Frame(ServerLoginStatus, payload)
  }

  /** decode_login_status: symbol, status and an int32 token whose encodings are the payload's first six bytes. */
  function DecodeLoginStatus(payload: seq<byte>): (r: (char, byte, int))
    ensures (r.0 as int) < 256 && IsInt32(r.2)
    ensures [ByteOf(r.0), r.1] + I32(r.2) == Slice(payload, 0, 6)
  {
    I32Bytes(payload, 2);
    SliceSplit(payload, 0, 2, 4);
    (CharOf(At(payload, 0)), At(payload, 1), ReadI32(payload, 2))
  }

  /** encode_udp_connected */
  function EncodeUdpConnected(): (r: seq<byte>)
    ensures Framed(r, ServerUdpConnected) && |r| == HeaderSize
  {
    Frame(ServerUdpConnected, [])
  }

  /** encode_start_game: the winning score as a uint16. */
  function EncodeStartGame(winnerPoints: int): (r: seq<byte>)
    ensures Framed(r, ServerStartGame) && |r| == HeaderSize + 2
    ensures ReadU16(Payload(r), 0) == winnerPoints % 0x1_0000
  {
    Frame(ServerStartGame, U16(winnerPoints))
  }

  /** encode_finish_game: the winner's symbol. */
  function EncodeFinishGame(winner: char): (r: seq<byte>)
    ensures Framed(r, ServerFinishGame) && |r| == HeaderSize + 1
    ensures (winner as int) < 256 ==> CharOf(At(Payload(r), 0)) == winner
  {
    Frame(ServerFinishGame, [ByteOf(winner)])
  }

  /** encode_wait_arena: the seconds as a uint16. */
  function EncodeWaitArena(seconds: int): (r: seq<byte>)
    ensures Framed(r, ServerWaitArena) && |r| == HeaderSize + 2
    ensures ReadU16(Payload(r), 0) == seconds % 0x1_0000
  {
    Frame(ServerWaitArena, U16(seconds))
  }

  /** encode_game_event: the symbol, then the points as a uint16. */
  function EncodeGameEvent(symbol: char, points: int): (r: seq<byte>)
    ensures Framed(r, ServerGameEvent) && |r| == HeaderSize + 3
    ensures At(Payload(r), 0) == ByteOf(symbol) && ReadU16(Payload(r), 1) == points % 0x1_0000
  {
    var payload := [ByteOf(symbol)] + U16(points);
    U16At(payload, 1, points);
    Frame(ServerGameEvent, payload)
  }

  // ---------------------------------------------------------------------
  // Records and their lists
  // ---------------------------------------------------------------------

  /** The concatenated encodings of a list, in order. */
  function Flatten<T>(xs: seq<T>, enc: T -> seq<byte>): seq<byte>
  {
    if xs == [] then [] else Flatten(xs[..|xs| - 1], enc) + enc(xs[|xs| - 1])
  }

  /** With a fixed record size the list takes size bytes per element. */
  lemma {:induction false} FlattenLength<T>(xs: seq<T>, enc: T -> seq<byte>, size: nat)
    requires forall k :: 0 <= k < |xs| ==> |enc(xs[k])| == size
    ensures |Flatten(xs, enc)| == size * |xs|
  {
    if xs != [] {
      FlattenLength(xs[..|xs| - 1], enc, size);
      assert size * |xs| == size * (|xs| - 1) + size;
    }
  }

  /** Byte j of the k-th element's encoding sits at size * k + j in the list's bytes. */
  lemma {:induction false} FlattenAt<T>(xs: seq<T>, enc: T -> seq<byte>, size: nat, k: nat, j: nat)
    requires forall i :: 0 <= i < |xs| ==> |enc(xs[i])| == size
    requires k < |xs| && j < size
    ensures size * k + j < |Flatten(xs, enc)|
    ensures Flatten(xs, enc)[size * k + j] == enc(xs[k])[j]
    decreases |xs|
  {
    var front := xs[..|xs| - 1];
    FlattenLength(front, enc, size);
    FlattenLength(xs, enc, size);
    if k < |xs| - 1 {
      assert size * k + j < size * (|xs| - 1) by {
        MulMonotone(size, k + 1, |xs| - 1);
        assert size * (k + 1) == size * k + size;
      }
      FlattenAt(front, enc, size, k, j);
    } else {
      assert size * k == |Flatten(front, enc)|;
    }
  }

  /** Multiplying by a natural number keeps the order. */
  lemma {:induction false} MulMonotone(a: nat, b: nat, c: nat)
    requires b <= c
    ensures a * b <= a * c
  {
    var d := c - b;
    assert a * c == a * b + a * d;
  }

  /**
   * How many times the loop decode_game_step runs for one list: it stops
   * once count records are read or the next record of size bytes would
   * end past len.
   */
  function ReadCount(offset: int, len: int, count: int, size: nat): (n: nat)
    requires size > 0
    ensures n <= Max(count, 0)
    decreases count
  {
    if count <= 0 || offset + size > len then 0
    else 1 + ReadCount(offset + size, len, count - 1, size)
  }

  /**
   * The records read end within len (or at the offset when none is read),
   * and fewer than count are read only when the next one would not fit.
   */
  lemma {:induction false} ReadCountBounds(offset: int, len: int, count: int, size: nat)
    requires size > 0
    ensures var n := ReadCount(offset, len, count, size);
      offset + size * n <= Max(len, offset) && (n < count ==> offset + size * (n + 1) > len)
    decreases count
  {
    if !(count <= 0 || offset + size > len) {
      var n := ReadCount(offset, len, count, size);
      ReadCountBounds(offset + size, len, count - 1, size);
      assert size * n == size + size * (n - 1);
      assert size * (n + 1) == size + size * n;
    }
  }

  /** A reader that expects count records, all of which fit, reads them all. */
  lemma {:induction false} ReadCountAll(offset: int, len: int, count: nat, size: nat)
    requires size > 0 && offset + size * count <= len
    ensures ReadCount(offset, len, count, size) == count
    decreases count
  {
    if count > 0 {
      assert size * count == size + size * (count - 1);
      ReadCountAll(offset + size, len, count - 1, size);
    }
  }

  /**
   * The records one such loop copies out: the k-th is decoded from the
   * size bytes k records after the offset.  The loop ends at offset + size
   * times the number read.
   */
  function Records<T>(s: seq<byte>, offset: int, len: int, count: int, size: nat, dec: seq<byte> -> T): (r: seq<T>)
    requires size > 0
    ensures |r| == ReadCount(offset, len, count, size)
  {
    seq(ReadCount(offset, len, count, size), k requires 0 <= k => dec(Slice(s, offset + size * k, size)))
  }

  /** The k-th record read is decoded from the size bytes k records after the offset. */
  lemma {:induction false} RecordAt<T>(s: seq<byte>, offset: int, len: int, count: int, size: nat, dec: seq<byte> -> T, k: nat)
    requires size > 0 && k < ReadCount(offset, len, count, size)
    ensures Records(s, offset, len, count, size, dec)[k] == dec(Slice(s, offset + size * k, size))
  {
  }

  /** Each element encodes to size bytes that decode back to it. */
  ghost predicate Inverts<T>(xs: seq<T>, size: nat, enc: T -> seq<byte>, dec: seq<byte> -> T)
  {
    forall k :: 0 <= k < |xs| ==> |enc(xs[k])| == size && dec(enc(xs[k])) == xs[k]
  }

  /** The bytes b sit in s starting at the offset. */
  ghost predicate Holds(s: seq<byte>, offset: int, b: seq<byte>)
  {
    0 <= offset && offset + |b| <= |s| && forall i {:trigger b[i]} :: 0 <= i < |b| ==> s[offset + i] == b[i]
  }

  /** The k-th element's encoding is the size bytes k records after the offset of the list. */
  lemma {:induction false} SliceOfFlatten<T>(s: seq<byte>, offset: int, xs: seq<T>, size: nat, enc: T -> seq<byte>, k: nat)
    requires forall i :: 0 <= i < |xs| ==> |enc(xs[i])| == size
    requires Holds(s, offset, Flatten(xs, enc)) && k < |xs|
    ensures Slice(s, offset + size * k, size) == enc(xs[k])
  {
    var b, f, start := enc(xs[k]), Flatten(xs, enc), size * k;
    forall j | 0 <= j < size ensures Slice(s, offset + start, size)[j] == b[j] {
      FlattenAt(xs, enc, size, k, j);
      assert f[start + j] == b[j];
      assert s[offset + (start + j)] == f[start + j];
    }
  }

  /** Records read back exactly the list whose encodings sit at the offset, when the reader expects that many. */
  lemma {:induction false} RecordsOfFlatten<T>(s: seq<byte>, offset: int, xs: seq<T>, len: int,
                            size: nat, enc: T -> seq<byte>, dec: seq<byte> -> T)
    requires size > 0 && Inverts(xs, size, enc, dec)
    requires Holds(s, offset, Flatten(xs, enc))
    requires len >= offset + size * |xs|
    ensures Records(s, offset, len, |xs|, size, dec) == xs
  {
    ReadCountAll(offset, len, |xs|, size);
    var r := Records(s, offset, len, |xs|, size, dec);
    forall k | 0 <= k < |xs| ensures r[k] == xs[k] {
      SliceOfFlatten(s, offset, xs, size, enc, k);
      RecordAt(s, offset, len, |xs|, size, dec, k);
      assert dec(enc(xs[k])) == xs[k];
    }
  }

  /** EntityData of an entity, with the casts encode_game_step applies. */
  function EntityRecord(e: Entity): (d: EntityData)
    ensures EntityDataFits(d)
    ensures IsInt32(e.id) && IsInt16(e.position.x) && IsInt16(e.position.y) ==>
      d.id == e.id && d.posX == e.position.x && d.posY == e.position.y
  {
    EntityData(Wrap32(e.id), ByteOf(e.symbol), Wrap16(e.position.x), Wrap16(e.position.y),
               e.health % 256, e.energy % 256, e.direction % 256, e.spellType.Code())
  }

  /** SpellData of a spell. */
  function SpellRecord(s: Spell): (d: SpellData)
    ensures SpellDataFits(d)
    ensures IsInt32(s.id) && IsInt16(s.position.x) && IsInt16(s.position.y) ==>
      d.id == s.id && d.posX == s.position.x && d.posY == s.position.y
  {
    SpellData(Wrap32(s.id), Wrap16(s.position.x), Wrap16(s.position.y), s.direction % 256, s.spellType % 256)
  }

  /** PlayerData of a player: the points are cast to uint16. */
  function PlayerRecord(p: Player): (d: PlayerData)
    ensures PlayerDataFits(d)
    ensures 0 <= p.points < 0x1_0000 ==> d.points == p.points
  {
    PlayerData(ByteOf(p.symbol), p.points % 0x1_0000)
  }

  /** The 13 bytes of an EntityData in declared field order. */
  function EncodeEntityData(d: EntityData): (r: seq<byte>)
    ensures |r| == EntityDataSize
  {
    I32(d.id) + [d.symbol] + U16(d.posX) + U16(d.posY) + [d.health, d.energy, d.direction, d.spellType]
  }

  /** An entity record whose fields fit their widths decodes back from its 13 bytes. */
  lemma {:induction false} EntityDataRoundTrip(d: EntityData)
    requires EntityDataFits(d)
    ensures DecodeEntityData(EncodeEntityData(d)) == d
  {
    var r := EncodeEntityData(d);
    I32At(r, 0, d.id);
    U16At(r, 5, d.posX);
    U16At(r, 7, d.posY);
  }

  lemma {:induction false} EntityDataBytes(b: seq<byte>)
    ensures I32(ReadI32(b, 0)) + [At(b, 4)] + U16(ReadI16(b, 5)) + U16(ReadI16(b, 7)) + [At(b, 9), At(b, 10), At(b, 11), At(b, 12)]
      == Slice(b, 0, EntityDataSize)
  {
    var head := I32(ReadI32(b, 0)) + [At(b, 4)];
    assert head == Slice(b, 0, 5) by {
      I32Bytes(b, 0);
      SliceSplit(b, 0, 4, 1);
      assert Slice(b, 4, 1) == [At(b, 4)] by {
        assert Slice(b, 4, 1)[0] == At(b, 4);
      }
    }
    var mid := head + U16(ReadI16(b, 5)) + U16(ReadI16(b, 7));
    assert mid == Slice(b, 0, 9) by {
      I16Bytes(b, 5);
      I16Bytes(b, 7);
      SliceSplit(b, 0, 5, 2);
      SliceSplit(b, 0, 7, 2);
    }
    var t := Slice(b, 9, 4);
    assert t == [At(b, 9), At(b, 10), At(b, 11), At(b, 12)] by {
      assert t[0] == At(b, 9) && t[1] == At(b, 10) && t[2] == At(b, 11) && t[3] == At(b, 12);
    }
    SliceSplit(b, 0, 9, 4);
  }

  /** Any 13 bytes (missing ones read as 0) decode to a record that fits its widths and encodes back to them. */
  function DecodeEntityData(b: seq<byte>): (d: EntityData)
    ensures EntityDataFits(d) && EncodeEntityData(d) == Slice(b, 0, EntityDataSize)
  {
    EntityDataBytes(b);
    EntityData(ReadI32(b, 0), At(b, 4), ReadI16(b, 5), ReadI16(b, 7), At(b, 9), At(b, 10), At(b, 11), At(b, 12))
  }

  /** The 10 bytes of a SpellData. */
  function EncodeSpellData(d: SpellData): (r: seq<byte>)
    ensures |r| == SpellDataSize
  {
    I32(d.id) + U16(d.posX) + U16(d.posY) + [d.direction, d.spellType]
  }

  /** A spell record whose fields fit their widths decodes back from its 10 bytes. */
  lemma {:induction false} SpellDataRoundTrip(d: SpellData)
    requires SpellDataFits(d)
    ensures DecodeSpellData(EncodeSpellData(d)) == d
  {
    var r := EncodeSpellData(d);
    I32At(r, 0, d.id);
    U16At(r, 4, d.posX);
    U16At(r, 6, d.posY);
  }

  lemma {:induction false} SpellDataBytes(b: seq<byte>)
    ensures I32(ReadI32(b, 0)) + U16(ReadI16(b, 4)) + U16(ReadI16(b, 6)) + [At(b, 8), At(b, 9)] == Slice(b, 0, SpellDataSize)
  {
    I32Bytes(b, 0);
    I16Bytes(b, 4);
    I16Bytes(b, 6);
    SliceSplit(b, 0, 4, 2);
    SliceSplit(b, 0, 6, 2);
    SliceSplit(b, 0, 8, 2);
    var t := Slice(b, 8, 2);
    assert t == [At(b, 8), At(b, 9)] by {
      assert t[0] == At(b, 8) && t[1] == At(b, 9);
    }
  }

  /** Any 10 bytes (missing ones read as 0) decode to a record that fits its widths and encodes back to them. */
  function DecodeSpellData(b: seq<byte>): (d: SpellData)
    ensures SpellDataFits(d) && EncodeSpellData(d) == Slice(b, 0, SpellDataSize)
  {
    SpellDataBytes(b);
    SpellData(ReadI32(b, 0), ReadI16(b, 4), ReadI16(b, 6), At(b, 8), At(b, 9))
  }

  /** The 3 bytes of a PlayerData. */
  function EncodePlayerData(d: PlayerData): (r: seq<byte>)
    ensures |r| == PlayerDataSize
  {
    [d.symbol] + U16(d.points)
  }

  /** A player record whose points fit a uint16 decodes back from its 3 bytes. */
  lemma {:induction false} PlayerDataRoundTrip(d: PlayerData)
    requires PlayerDataFits(d)
    ensures DecodePlayerData(EncodePlayerData(d)) == d
  {
    var r := EncodePlayerData(d);
    U16At(r, 1, d.points);
  }

  /** Any 3 bytes (missing ones read as 0) decode to a record that fits its widths and encodes back to them. */
  function DecodePlayerData(b: seq<byte>): (d: PlayerData)
    ensures PlayerDataFits(d) && EncodePlayerData(d) == Slice(b, 0, PlayerDataSize)
  {
    U16Bytes(b, 1);
    SliceSplit(b, 0, 1, 2);
    PlayerData(At(b, 0), ReadU16(b, 1))
  }

  function EntityRecords(ents: seq<Entity>): (r: seq<EntityData>)
    ensures |r| == |ents| && forall i :: 0 <= i < |ents| ==> r[i] == EntityRecord(ents[i])
  {
    seq(|ents|, i requires 0 <= i < |ents| => EntityRecord(ents[i]))
  }

  function SpellRecords(ss: seq<Spell>): (r: seq<SpellData>)
    ensures |r| == |ss| && forall i :: 0 <= i < |ss| ==> r[i] == SpellRecord(ss[i])
  {
    seq(|ss|, i requires 0 <= i < |ss| => SpellRecord(ss[i]))
  }

  function PlayerRecords(roster: seq<Player>): (r: seq<PlayerData>)
    ensures |r| == |roster| && forall i :: 0 <= i < |roster| ==> r[i] == PlayerRecord(roster[i])
  {
    seq(|roster|, i requires 0 <= i < |roster| => PlayerRecord(roster[i]))
  }

  // ---------------------------------------------------------------------
  // Arena frames
  // ---------------------------------------------------------------------

  /** The three list lengths, each cast to a count byte. */
  function CountBytes(entityCount: nat, spellCount: nat, playerCount: nat): seq<byte>
  {
    [entityCount % 256, spellCount % 256, playerCount % 256]
  }

  /** The payload of encode_game_step: three count bytes, then the records of each list. */
  function GameStepPayload(ents: seq<Entity>, spells: seq<Spell>, roster: seq<Player>): (r: seq<byte>)
    ensures |r| == 3 + EntityDataSize * |ents| + SpellDataSize * |spells| + PlayerDataSize * |roster|
  {
    FlattenLength(EntityRecords(ents), EncodeEntityData, EntityDataSize);
    FlattenLength(SpellRecords(spells), EncodeSpellData, SpellDataSize);
    FlattenLength(PlayerRecords(roster), EncodePlayerData, PlayerDataSize);
    CountBytes(|ents|, |spells|, |roster|)
      + Flatten(EntityRecords(ents), EncodeEntityData)
      + Flatten(SpellRecords(spells), EncodeSpellData)
      + Flatten(PlayerRecords(roster), EncodePlayerData)
  }

  /** encode_game_step: 3 + 13 bytes per entity + 10 per spell + 3 per player after the header. */
  function EncodeGameStep(ents: seq<Entity>, spells: seq<Spell>, roster: seq<Player>): (r: seq<byte>)
    ensures |r| == HeaderSize + 3 + EntityDataSize * |ents| + SpellDataSize * |spells| + PlayerDataSize * |roster|
    ensures |r| - HeaderSize < 0x1_0000 ==> Framed(r, ServerGameStep)
  {
    Frame(ServerGameStep, GameStepPayload(ents, spells, roster))
  }

  /** What decode_game_step fills in: the three counts, the records read, and the bytes consumed. */
  datatype StepData = StepData(
    entityCount: int, spellCount: int, playerCount: int,
    entities: seq<EntityData>, spells: seq<SpellData>, players: seq<PlayerData>,
    consumed: int)

  /**
   * The three loops of decode_game_step, given the number of records each
   * is to read: each list is read while records remain to be read and the
   * next one fits within len, starting where the previous list ended.
   */
  function ReadLists(payload: seq<byte>, len: int, entityCount: int, spellCount: int, playerCount: int): (r: StepData)
    ensures r.entityCount == entityCount && r.spellCount == spellCount && r.playerCount == playerCount
    ensures |r.entities| <= Max(entityCount, 0) && |r.spells| <= Max(spellCount, 0) && |r.players| <= Max(playerCount, 0)
    ensures r.consumed == 3 + EntityDataSize * |r.entities| + SpellDataSize * |r.spells| + PlayerDataSize * |r.players|
    ensures r.consumed <= Max(len, 3)
  {
    var es := Records(payload, 3, len, entityCount, EntityDataSize, DecodeEntityData);
    var spellsAt := 3 + EntityDataSize * |es|;
    var ss := Records(payload, spellsAt, len, spellCount, SpellDataSize, DecodeSpellData);
    var playersAt := spellsAt + SpellDataSize * |ss|;
    var ps := Records(payload, playersAt, len, playerCount, PlayerDataSize, DecodePlayerData);
    ReadCountBounds(3, len, entityCount, EntityDataSize);
    ReadCountBounds(spellsAt, len, spellCount, SpellDataSize);
    ReadCountBounds(playersAt, len, playerCount, PlayerDataSize);
    StepData(entityCount, spellCount, playerCount, es, ss, ps, playersAt + PlayerDataSize * |ps|)
  }

  /**
   * decode_game_step as written: the counts are the first three bytes, and
   * each loop runs up to its count.  The counts are neither compared with
   * the capacity of the arrays the records go into nor lowered to the
   * number of records a short frame holds.
   */
  function DecodeGameStep(payload: seq<byte>, len: int): (r: StepData)
    ensures r.entityCount == At(payload, 0) && r.spellCount == At(payload, 1) && r.playerCount == At(payload, 2)
    ensures |r.entities| <= r.entityCount && |r.spells| <= r.spellCount && |r.players| <= r.playerCount
    ensures r.consumed <= Max(len, 3)
  {
    ReadLists(payload, len, At(payload, 0), At(payload, 1), At(payload, 2))
  }

  /** Entity records that fit their widths, encoded in a row, read back through Records. */
  lemma {:induction false} EntityListRead(p: seq<byte>, offset: int, es: seq<EntityData>)
    requires forall k :: 0 <= k < |es| ==> EntityDataFits(es[k])
    requires Holds(p, offset, Flatten(es, EncodeEntityData)) && |p| >= offset + EntityDataSize * |es|
    ensures Records(p, offset, |p|, |es|, EntityDataSize, DecodeEntityData) == es
  {
    forall k | 0 <= k < |es| {
      EntityDataRoundTrip(es[k]);
    }
    RecordsOfFlatten(p, offset, es, |p|, EntityDataSize, EncodeEntityData, DecodeEntityData);
  }

  /** Spell records that fit their widths, encoded in a row, read back through Records. */
  lemma {:induction false} SpellListRead(p: seq<byte>, offset: int, ss: seq<SpellData>)
    requires forall k :: 0 <= k < |ss| ==> SpellDataFits(ss[k])
    requires Holds(p, offset, Flatten(ss, EncodeSpellData)) && |p| >= offset + SpellDataSize * |ss|
    ensures Records(p, offset, |p|, |ss|, SpellDataSize, DecodeSpellData) == ss
  {
    forall k | 0 <= k < |ss| {
      SpellDataRoundTrip(ss[k]);
    }
    RecordsOfFlatten(p, offset, ss, |p|, SpellDataSize, EncodeSpellData, DecodeSpellData);
  }

  /** Player records that fit their widths, encoded in a row, read back through Records. */
  lemma {:induction false} PlayerListRead(p: seq<byte>, offset: int, ps: seq<PlayerData>)
    requires forall k :: 0 <= k < |ps| ==> PlayerDataFits(ps[k])
    requires Holds(p, offset, Flatten(ps, EncodePlayerData)) && |p| >= offset + PlayerDataSize * |ps|
    ensures Records(p, offset, |p|, |ps|, PlayerDataSize, DecodePlayerData) == ps
  {
    forall k | 0 <= k < |ps| {
      PlayerDataRoundTrip(ps[k]);
    }
    RecordsOfFlatten(p, offset, ps, |p|, PlayerDataSize, EncodePlayerData, DecodePlayerData);
  }

  /** Where the parts of a four-part concatenation sit. */
  lemma {:induction false} Parts(s: seq<byte>, a: seq<byte>, b: seq<byte>, c: seq<byte>, d: seq<byte>)
    requires s == a + b + c + d
    ensures Holds(s, |a|, b) && Holds(s, |a| + |b|, c) && Holds(s, |a| + |b| + |c|, d)
  {
  }

  /**
   * A game-step payload laid out as encode_game_step lays it out: the
   * three counts, then the encodings of each list in turn, with nothing
   * after them; every record fits its declared widths.
   */
  ghost predicate StepLayout(p: seq<byte>, es: seq<EntityData>, ss: seq<SpellData>, ps: seq<PlayerData>)
  {
    && (forall k :: 0 <= k < |es| ==> EntityDataFits(es[k]))
    && (forall k :: 0 <= k < |ss| ==> SpellDataFits(ss[k]))
    && (forall k :: 0 <= k < |ps| ==> PlayerDataFits(ps[k]))
    && At(p, 0) == |es| % 256 && At(p, 1) == |ss| % 256 && At(p, 2) == |ps| % 256
    && |p| == 3 + EntityDataSize * |es| + SpellDataSize * |ss| + PlayerDataSize * |ps|
    && Holds(p, 3, Flatten(es, EncodeEntityData))
    && Holds(p, 3 + EntityDataSize * |es|, Flatten(ss, EncodeSpellData))
    && Holds(p, 3 + EntityDataSize * |es| + SpellDataSize * |ss|, Flatten(ps, EncodePlayerData))
  }

  /** encode_game_step lays its payload out that way. */
  lemma {:induction false} GameStepPayloadLayout(ents: seq<Entity>, spells: seq<Spell>, roster: seq<Player>)
    ensures StepLayout(GameStepPayload(ents, spells, roster), EntityRecords(ents), SpellRecords(spells), PlayerRecords(roster))
  {
    var es, ss, ps := EntityRecords(ents), SpellRecords(spells), PlayerRecords(roster);
    assert forall k :: 0 <= k < |es| ==> EntityDataFits(es[k]);
    assert forall k :: 0 <= k < |ss| ==> SpellDataFits(ss[k]);
    assert forall k :: 0 <= k < |ps| ==> PlayerDataFits(ps[k]);
    ConcatLayout(GameStepPayload(ents, spells, roster), es, ss, ps);
  }

  /** The three counts followed by the three lists of fitting records make a step layout. */
  lemma {:induction false} ConcatLayout(p: seq<byte>, es: seq<EntityData>, ss: seq<SpellData>, ps: seq<PlayerData>)
    requires forall k :: 0 <= k < |es| ==> EntityDataFits(es[k])
    requires forall k :: 0 <= k < |ss| ==> SpellDataFits(ss[k])
    requires forall k :: 0 <= k < |ps| ==> PlayerDataFits(ps[k])
    requires p == CountBytes(|es|, |ss|, |ps|)
      + Flatten(es, EncodeEntityData) + Flatten(ss, EncodeSpellData) + Flatten(ps, EncodePlayerData)
    ensures StepLayout(p, es, ss, ps)
  {
    FlattenLength(es, EncodeEntityData, EntityDataSize);
    FlattenLength(ss, EncodeSpellData, SpellDataSize);
    FlattenLength(ps, EncodePlayerData, PlayerDataSize);
    Parts(p, CountBytes(|es|, |ss|, |ps|),
          Flatten(es, EncodeEntityData), Flatten(ss, EncodeSpellData), Flatten(ps, EncodePlayerData));
  }

  /** A count below 256 survives the cast to a count byte. */
  lemma {:induction false} SmallCount(n: nat)
    ensures n < 256 ==> n % 256 == n
  {
  }

  /**
   * The three loops read a payload so laid out back, each list from where
   * the previous one ends, when each expects as many records as were
   * written.
   */
  lemma {:induction false} LayoutReads(p: seq<byte>, es: seq<EntityData>, ss: seq<SpellData>, ps: seq<PlayerData>)
    requires StepLayout(p, es, ss, ps)
    ensures ReadLists(p, |p|, |es|, |ss|, |ps|) == StepData(|es|, |ss|, |ps|, es, ss, ps, |p|)
  {
    var spellsAt := 3 + EntityDataSize * |es|;
    var playersAt := spellsAt + SpellDataSize * |ss|;
    EntityListRead(p, 3, es);
    SpellListRead(p, spellsAt, ss);
    PlayerListRead(p, playersAt, ps);
    assert spellsAt == 3 + EntityDataSize * |Records(p, 3, |p|, |es|, EntityDataSize, DecodeEntityData)|;
    assert playersAt == spellsAt + SpellDataSize * |Records(p, spellsAt, |p|, |ss|, SpellDataSize, DecodeSpellData)|;
    ReadListsParts(p, |p|, |es|, |ss|, |ps|, es, spellsAt, ss, playersAt, ps);
  }

  /** ReadLists field by field, once the lists each loop reads are known. */
  lemma {:induction false} ReadListsParts(p: seq<byte>, len: int, ne: int, ns: int, np: int,
                       es: seq<EntityData>, spellsAt: int, ss: seq<SpellData>, playersAt: int, ps: seq<PlayerData>)
    requires Records(p, 3, len, ne, EntityDataSize, DecodeEntityData) == es
    requires spellsAt == 3 + EntityDataSize * |Records(p, 3, len, ne, EntityDataSize, DecodeEntityData)|
    requires Records(p, spellsAt, len, ns, SpellDataSize, DecodeSpellData) == ss
    requires playersAt == spellsAt + SpellDataSize * |Records(p, spellsAt, len, ns, SpellDataSize, DecodeSpellData)|
    requires Records(p, playersAt, len, np, PlayerDataSize, DecodePlayerData) == ps
    ensures var r := ReadLists(p, len, ne, ns, np);
      r.entities == es && r.spells == ss && r.players == ps
      && r.consumed == playersAt + PlayerDataSize * |Records(p, playersAt, len, np, PlayerDataSize, DecodePlayerData)|
  {
    ReadListsSpells(p, len, ne, ns, np);
    ReadListsPlayers(p, len, ne, ns, np, spellsAt);
  }

  /** The spells ReadLists reads start where the entities end. */
  lemma {:induction false} ReadListsSpells(p: seq<byte>, len: int, ne: int, ns: int, np: int)
    ensures ReadLists(p, len, ne, ns, np).spells
      == Records(p, 3 + EntityDataSize * |Records(p, 3, len, ne, EntityDataSize, DecodeEntityData)|, len, ns, SpellDataSize, DecodeSpellData)
  {
  }

  /** The players ReadLists reads start where the spells end. */
  lemma {:induction false} ReadListsPlayers(p: seq<byte>, len: int, ne: int, ns: int, np: int, spellsAt: int)
    requires spellsAt == 3 + EntityDataSize * |Records(p, 3, len, ne, EntityDataSize, DecodeEntityData)|
    ensures var playersAt := spellsAt + SpellDataSize * |Records(p, spellsAt, len, ns, SpellDataSize, DecodeSpellData)|;
      ReadLists(p, len, ne, ns, np).players == Records(p, playersAt, len, np, PlayerDataSize, DecodePlayerData)
  {
  }

  /** decode_game_step reads a payload so laid out back, when no list is longer than a count byte can say. */
  lemma {:induction false} LayoutDecodes(p: seq<byte>, es: seq<EntityData>, ss: seq<SpellData>, ps: seq<PlayerData>)
    requires StepLayout(p, es, ss, ps)
    requires |es| < 256 && |ss| < 256 && |ps| < 256
    ensures DecodeGameStep(p, |p|) == StepData(|es|, |ss|, |ps|, es, ss, ps, |p|)
  {
    SmallCount(|es|);
    SmallCount(|ss|);
    SmallCount(|ps|);
    LayoutReads(p, es, ss, ps);
  }

  /**
   * A frame built by encode_game_step decodes to the records of the
   * arena's lists, as long as no list is longer than a count byte can say.
   */
  lemma {:induction false} GameStepRoundTrip(ents: seq<Entity>, spells: seq<Spell>, roster: seq<Player>)
    requires |ents| < 256 && |spells| < 256 && |roster| < 256
    ensures var r := EncodeGameStep(ents, spells, roster);
      DecodeGameStep(Payload(r), |r| - HeaderSize)
        == StepData(|ents|, |spells|, |roster|, EntityRecords(ents), SpellRecords(spells), PlayerRecords(roster), |r| - HeaderSize)
  {
    GameStepPayloadLayout(ents, spells, roster);
    LayoutDecodes(GameStepPayload(ents, spells, roster), EntityRecords(ents), SpellRecords(spells), PlayerRecords(roster));
  }

  /** As written, a well-formed frame that announces 17 entities makes the client store 17 of them. */
  lemma {:induction false} GameStepOverrun()
    ensures var payload := [17, 0, 0] + seq<byte>(17 * EntityDataSize, _ => 0);
      |DecodeGameStep(payload, |payload|).entities| == MaxEntities + 1
  {
    var payload := [17, 0, 0] + seq<byte>(17 * EntityDataSize, _ => 0);
    ReadCountAll(3, |payload|, 17, EntityDataSize);
  }

  /**
   * The decoding the client's arrays can hold: a list is read up to the
   * capacity of the array it fills (MAX_ENTITIES, MAX_SPELLS, MAX_PLAYERS),
   * and each count is the number of records actually read.
   */
  function DecodeGameStepCapped(payload: seq<byte>, len: int): (r: StepData)
    ensures r.entityCount == |r.entities| <= MaxEntities
    ensures r.spellCount == |r.spells| <= MaxSpells
    ensures r.playerCount == |r.players| <= MaxPlayers
    ensures r.consumed == 3 + EntityDataSize * |r.entities| + SpellDataSize * |r.spells| + PlayerDataSize * |r.players|
    ensures r.consumed <= Max(len, 3)
  {
    var r := ReadLists(payload, len, Min(At(payload, 0), MaxEntities), Min(At(payload, 1), MaxSpells), Min(At(payload, 2), MaxPlayers));
    r.(entityCount := |r.entities|, spellCount := |r.spells|, playerCount := |r.players|)
  }

  /** The capped decoding reads a payload so laid out back, when no list exceeds its array. */
  lemma {:induction false} LayoutDecodesCapped(p: seq<byte>, es: seq<EntityData>, ss: seq<SpellData>, ps: seq<PlayerData>)
    requires StepLayout(p, es, ss, ps)
    requires |es| <= MaxEntities && |ss| <= MaxSpells && |ps| <= MaxPlayers
    ensures DecodeGameStepCapped(p, |p|) == StepData(|es|, |ss|, |ps|, es, ss, ps, |p|)
  {
    SmallCount(|es|);
    SmallCount(|ss|);
    SmallCount(|ps|);
    LayoutReads(p, es, ss, ps);
  }

  /** Every frame the server can build for a full arena decodes, capped, to the arena's own lists. */
  lemma {:induction false} GameStepCappedRoundTrip(ents: seq<Entity>, spells: seq<Spell>, roster: seq<Player>)
    requires |ents| <= MaxEntities && |spells| <= MaxSpells && |roster| <= MaxPlayers
    ensures var r := EncodeGameStep(ents, spells, roster);
      DecodeGameStepCapped(Payload(r), |r| - HeaderSize)
        == StepData(|ents|, |spells|, |roster|, EntityRecords(ents), SpellRecords(spells), PlayerRecords(roster), |r| - HeaderSize)
  {
    GameStepPayloadLayout(ents, spells, roster);
    LayoutDecodesCapped(GameStepPayload(ents, spells, roster), EntityRecords(ents), SpellRecords(spells), PlayerRecords(roster));
  }

  /** The int32 entity ids of the roster, in order. */
  function EntityIds(roster: seq<Player>): (r: seq<byte>)
    ensures |r| == 4 * |roster|
    ensures forall i :: 0 <= i < |roster| ==> ReadI32(r, 4 * i) == Wrap32(roster[i].entityId)
  {
    if roster == [] then []
    else
      var front := EntityIds(roster[..|roster| - 1]);
      var r := front + I32(roster[|roster| - 1].entityId);
      I32At(r, |front|, roster[|roster| - 1].entityId);
      forall i | 0 <= i < |roster| - 1
        ensures ReadI32(r, 4 * i) == ReadI32(front, 4 * i)
      {
        ReadI32Window(r, 4 * i, front, 4 * i);
      }
      r
  }

  /** One byte per cell: 0 for floor, 1 for wall. */
  function TerrainBytes(cells: seq<Terrain>): (r: seq<byte>)
    ensures |r| == |cells| && forall i :: 0 <= i < |cells| ==> r[i] == cells[i].Code()
  {
    seq<byte>(|cells|, i requires 0 <= i < |cells| => cells[i].Code())
  }

  /**
   * encode_start_arena: the arena number (uint16), the roster size (one
   * byte), the map size (uint16), each player's entity id as an int32,
   * then one byte per cell.
   */
  function EncodeStartArena(arenaNumber: int, roster: seq<Player>, size: int, cells: seq<Terrain>): (r: seq<byte>)
    ensures |r| == HeaderSize + 5 + 4 * |roster| + |cells|
    ensures |r| - HeaderSize < 0x1_0000 ==> Framed(r, ServerStartArena)
  {
    Frame(ServerStartArena, U16(arenaNumber) + [|roster| % 256] + U16(size) + EntityIds(roster) + TerrainBytes(cells))
  }

  /** The client finds the arena number, the roster's entity ids and every cell where the server put them. */
  lemma {:induction false} StartArenaLayout(arenaNumber: int, roster: seq<Player>, size: int, cells: seq<Terrain>)
    ensures var p := Payload(EncodeStartArena(arenaNumber, roster, size, cells));
      ReadU16(p, 0) == arenaNumber % 0x1_0000 && p[2] == |roster| % 256 && ReadU16(p, 3) == size % 0x1_0000
      && (forall i :: 0 <= i < |roster| ==> ReadI32(p, 5 + 4 * i) == Wrap32(roster[i].entityId))
      && (forall i :: 0 <= i < |cells| ==> p[5 + 4 * |roster| + i] == cells[i].Code())
  {
    var ids := EntityIds(roster);
    var p := Payload(EncodeStartArena(arenaNumber, roster, size, cells));
    U16At(p, 0, arenaNumber);
    U16At(p, 3, size);
    forall i | 0 <= i < |roster| ensures ReadI32(p, 5 + 4 * i) == Wrap32(roster[i].entityId) {
      ReadI32Window(p, 5 + 4 * i, ids, 4 * i);
    }
  }
}

