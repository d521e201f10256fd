/**
 * The connection menu (ui/menu.h, ui/menu.c): the server-address text
 * field with its cursor, the one-letter character field, which of the two
 * has the focus, and what the client has learned about the server.  The
 * address is a 64-cell char array holding a C string; editing shifts its
 * tail in place.
 */
module Menus {
  import opened Util
  import opened Input

  const MaxServerAddrLen := 64
  const MaxWaitingRoomPlayers := 8
  /** The size of VersionInfo.version. */
  const VersionCapacity := 32

  datatype ConnectionStatus = NotConnected | Connecting | Connected | NotFound | ConnectionLost

  datatype LoginStatusType = NotLogged | Logged | InvalidName | NameTaken | PlayerLimit

  /** VersionInfo: the server's version string and its compatibility (0 none, 1 not exact, 2 full). */
  datatype VersionInfo = VersionInfo(version: seq<char>, compatibility: int)

  /** ServerInfo; udpConfirmed is -1 while checking, 0 for no, 1 for yes. */
  datatype ServerInfo = ServerInfo(
    hasInfo: bool, udpPort: int, mapSize: int, winnerPoints: int,
    maxPlayers: int, currentPlayers: int, udpConfirmed: int)

  /** Everything the menu knows apart from its two input fields. */
  datatype MenuStatus = MenuStatus(
    connectionStatus: ConnectionStatus, loginStatus: LoginStatusType,
    versionInfo: VersionInfo, hasVersionInfo: bool, serverInfo: ServerInfo,
    loggedPlayers: seq<char>, loggedPlayersCount: int, startCountdown: int)

  // ---------------------------------------------------------------------
  // Editing, as functions of the field's contents
  // ---------------------------------------------------------------------

  /** What a key does to a text field: its new text and cursor, or nothing when the field lets the key pass. */
  datatype AddressEdit = Edited(text: seq<char>, cursor: int) | Passed

  /** The keys menu_handle_key treats as Backspace. */
  predicate IsBackspace(key: Key)
  {
    key == KeyBackspace || key == 127 || key == 8
  }

  /**
   * The address field's part of menu_handle_key.  A printable key (32 to
   * 126) is inserted at the cursor while the text is shorter than 63;
   * Backspace removes the character before the cursor, Delete the one at
   * it; Left, Right, Home and End move the cursor within the text.  Every
   * other key passes, a printable one too when the field is full.
   */
  function EditAddress(text: seq<char>, cursor: int, key: Key): (r: AddressEdit)
    requires 0 <= cursor <= |text|
    ensures r.Edited? ==> 0 <= r.cursor <= |r.text|
    ensures r.Edited? && |text| < MaxServerAddrLen ==> |r.text| < MaxServerAddrLen
    ensures r.Edited? && '\0' !in text ==> '\0' !in r.text
    ensures 32 <= key <= 126 && |text| < MaxServerAddrLen - 1 ==>
      r.Edited? && |r.text| == |text| + 1 && r.cursor == cursor + 1 && r.text[cursor] == key as char
    ensures r.Edited? && r.text != text ==> 32 <= key <= 126 || IsBackspace(key) || key == KeyDc
    ensures key == KeyDc && r.Edited? ==> r.cursor == cursor
  {
    if 32 <= key <= 126 && |text| < MaxServerAddrLen - 1 then
      Edited(text[..cursor] + [key as char] + text[cursor..], cursor + 1)
    else if IsBackspace(key) then
      if cursor > 0 then Edited(text[..cursor - 1] + text[cursor..], cursor - 1) else Edited(text, cursor)
    else if key == KeyDc then
      if cursor < |text| then Edited(text[..cursor] + text[cursor + 1..], cursor) else Edited(text, cursor)
    else if key == KeyLeft then
      Edited(text, if cursor > 0 then cursor - 1 else cursor)
    else if key == KeyRight then
      Edited(text, if cursor < |text| then cursor + 1 else cursor)
    else if key == KeyHome then
      Edited(text, 0)
    else if key == KeyEnd then
      Edited(text, |text|)
    else
      Passed
  }

  /** Backspace undoes the insertion of a printable key: text and cursor are as before. */
  lemma {:induction false} BackspaceUndoesInsert(text: seq<char>, cursor: int, key: Key)
    requires 0 <= cursor <= |text| < MaxServerAddrLen - 1 && 32 <= key <= 126
    ensures var typed := EditAddress(text, cursor, key);
      EditAddress(typed.text, typed.cursor, KeyBackspace) == Edited(text, cursor)
  {
    var typed := EditAddress(text, cursor, key);
    assert typed.text[..cursor] == text[..cursor];
    assert typed.text[cursor + 1..] == text[cursor..];
    assert typed.text[..cursor] + typed.text[cursor + 1..] == text;
  }

  /** Delete after Left undoes the insertion of a printable key, leaving the cursor where the key was typed. */
  lemma {:induction false} DeleteUndoesInsert(text: seq<char>, cursor: int, key: Key)
    requires 0 <= cursor <= |text| < MaxServerAddrLen - 1 && 32 <= key <= 126
    ensures var typed := EditAddress(text, cursor, key);
      var back := EditAddress(typed.text, typed.cursor, KeyLeft);
      EditAddress(back.text, back.cursor, KeyDc) == Edited(text, cursor)
  {
    var typed := EditAddress(text, cursor, key);
    assert typed.text[..cursor] == text[..cursor];
    assert typed.text[cursor + 1..] == text[cursor..];
    assert typed.text[..cursor] + typed.text[cursor + 1..] == text;
  }

  /** What a key does to the character field: the new content, or nothing when the key passes. */
  datatype CharEdit = Typed(c: char) | Ignored

  /**
   * The character field's part of menu_handle_key: a letter is stored
   * upper-cased, Backspace and Delete clear the field to '\0', every other
   * key passes.  The field therefore only ever holds '\0' or 'A'..'Z'.
   */
  function EditCharacter(key: Key): (r: CharEdit)
    ensures r.Typed? ==> r.c == '\0' || 'A' <= r.c <= 'Z'
    ensures r.Typed? && r.c != '\0' <==> ('A' as int <= key <= 'Z' as int || 'a' as int <= key <= 'z' as int)
    ensures 'a' as int <= key <= 'z' as int ==> r == Typed((key - 32) as char)
    ensures 'A' as int <= key <= 'Z' as int ==> r == Typed(key as char)
  {
    if 'A' as int <= key <= 'Z' as int || 'a' as int <= key <= 'z' as int then
      Typed((if key >= 'a' as int then key - 'a' as int + 'A' as int else key) as char)
    else if IsBackspace(key) || key == KeyDc then
      Typed('\0')
    else
      Ignored
  }

  /** The key menu_handle_key passes back: 0 when a focused field takes it, the key itself otherwise. */
  function PassedKey(addressFocus: bool, characterFocus: bool, text: seq<char>, cursor: int, key: Key): (r: int)
    requires 0 <= cursor <= |text|
    ensures r == 0 || r == key
    ensures !addressFocus && !characterFocus ==> r == key
  {
    var edit := if addressFocus then EditAddress(text, cursor, key) else Passed;
    var typed := if characterFocus then EditCharacter(key) else Ignored;
    if edit.Edited? || typed.Typed? then 0 else key
  }

  /** Escape and both Enter keys always get through the menu's fields to the application. */
  lemma {:induction false} CommandKeysPass(addressFocus: bool, characterFocus: bool, text: seq<char>, cursor: int)
    requires 0 <= cursor <= |text|
    ensures PassedKey(addressFocus, characterFocus, text, cursor, KeyEscape) == KeyEscape
    ensures PassedKey(addressFocus, characterFocus, text, cursor, KeyEnterAlt) == KeyEnterAlt
    ensures PassedKey(addressFocus, characterFocus, text, cursor, KeyEnter) == KeyEnter
  {
    assert !IsBackspace(KeyEscape) && !IsBackspace(KeyEnterAlt) && !IsBackspace(KeyEnter);
  }

  /**
   * The focus rule of menu_update: the address while not connected or the
   * server's version is incompatible, the character once connected but
   * not logged in, and neither once logged in.  Never both.
   */
  function FocusFor(status: ConnectionStatus, compatible: bool, login: LoginStatusType): (r: (bool, bool))
    ensures !(r.0 && r.1)
    ensures r.0 <==> status != Connected || !compatible
    ensures r.1 <==> status == Connected && compatible && login != Logged
  {
    if status != Connected || !compatible then (true, false)
    else if login != Logged then (false, true)
    else (false, false)
  }

  /** The menu's status after menu_set_connection_status: any status but Connected forgets the server. */
  function WithConnection(m: MenuStatus, status: ConnectionStatus): (r: MenuStatus)
    ensures r.connectionStatus == status
    ensures status == Connected ==> r == m.(connectionStatus := status)
    ensures status != Connected ==>
      && !r.serverInfo.hasInfo && !r.hasVersionInfo && r.loginStatus == NotLogged && r.loggedPlayersCount == 0
      && r.versionInfo == m.versionInfo && r.loggedPlayers == m.loggedPlayers && r.startCountdown == m.startCountdown
      && r.serverInfo == m.serverInfo.(hasInfo := false)
  {
    if status != Connected then
      m.(connectionStatus := status, serverInfo := m.serverInfo.(hasInfo := false),
         hasVersionInfo := false, loginStatus := NotLogged, loggedPlayersCount := 0)
    else
      m.(connectionStatus := status)
  }

  /** The menu's status after menu_set_players: the first min(count, 8) symbols are copied, the count kept as given. */
  function WithPlayers(m: MenuStatus, players: seq<char>, count: int): (r: MenuStatus)
    requires |m.loggedPlayers| == MaxWaitingRoomPlayers && 0 <= count && Min(count, MaxWaitingRoomPlayers) <= |players|
    ensures r.loggedPlayersCount == count
    ensures r.serverInfo.currentPlayers == Min(count, MaxWaitingRoomPlayers) <= MaxWaitingRoomPlayers
    ensures |r.loggedPlayers| == MaxWaitingRoomPlayers
    ensures forall i :: 0 <= i < MaxWaitingRoomPlayers ==>
      r.loggedPlayers[i] == if i < count then players[i] else m.loggedPlayers[i]
  {
    var n := Min(count, MaxWaitingRoomPlayers);
    m.(loggedPlayersCount := count, loggedPlayers := players[..n] + m.loggedPlayers[n..],
       serverInfo := m.serverInfo.(currentPlayers := n))
  }

  /** menu_is_server_full: only once the server's info is known, when the players reach its limit. */
  predicate ServerFull(info: ServerInfo)
  {
    info.hasInfo && info.currentPlayers >= info.maxPlayers
  }

  /** Forgetting the server (any status but Connected) makes the menu report a server that is not full. */
  lemma {:induction false} DisconnectedNotFull(m: MenuStatus, status: ConnectionStatus)
    requires status != Connected
    ensures !ServerFull(WithConnection(m, status).serverInfo)
    ensures FocusFor(status, true, WithConnection(m, status).loginStatus) == (true, false)
  {
  }

  // ---------------------------------------------------------------------
  // The Menu record
  // ---------------------------------------------------------------------

  class Menu {
    /** server_addr_input.content: a C string in 64 cells. */
    const address: array<char>
    var cursorPos: int
    var addressFocus: bool
    /** character_input.content: '\0' when no letter is chosen. */
    var character: char
    var characterFocus: bool

    var connectionStatus: ConnectionStatus
    var loginStatus: LoginStatusType
    var versionInfo: VersionInfo
    var hasVersionInfo: bool
    var serverInfo: ServerInfo
    var loggedPlayers: seq<char>
    var loggedPlayersCount: int
    var startCountdown: int

    /** The address is NUL-terminated within its array and the cursor lies within the text. */
    ghost predicate Valid()
      reads this, address
    {
      && address.Length == MaxServerAddrLen
      && |CStr(address[..])| < MaxServerAddrLen
      && 0 <= cursorPos <= |CStr(address[..])|
      && |loggedPlayers| == MaxWaitingRoomPlayers
    }

    /** menu_get_server_addr: the text of the address field. */
    function ServerAddr(): (s: seq<char>)
      reads this, address
      ensures '\0' !in s && |s| <= address.Length
    {
      CStr(address[..])
    }

    ghost function Status(): MenuStatus
      reads this
    {
      MenuStatus(connectionStatus, loginStatus, versionInfo, hasVersionInfo, serverInfo,
                 loggedPlayers, loggedPlayersCount, startCountdown)
    }

    /**
     * menu_create: the address field holds the default address (at most 63
     * characters) with the cursor at its end and the focus; the character
     * field holds the default character; nothing is known of a server.
     * The waiting-room animation it also sets up is not part of this model.
     */
    constructor (defaultAddr: seq<char>, defaultChar: char)
      ensures Valid()
      ensures ServerAddr() == CStr(defaultAddr)[..Min(|CStr(defaultAddr)|, MaxServerAddrLen - 1)]
      ensures cursorPos == |ServerAddr()| && addressFocus
      ensures character == defaultChar && !characterFocus
      ensures connectionStatus == NotConnected && loginStatus == NotLogged
      ensures !hasVersionInfo && !serverInfo.hasInfo && serverInfo.udpConfirmed == -1
      ensures loggedPlayersCount == 0 && startCountdown == -1
    {
      address := new char[MaxServerAddrLen](_ => '\0');
      addressFocus := true;
      character := defaultChar;
      characterFocus := false;
      connectionStatus := NotConnected;
      loginStatus := NotLogged;
      versionInfo := VersionInfo([], 0);
      hasVersionInfo := false;
      serverInfo := ServerInfo(false, 0, 0, 0, 0, 0, -1);
      loggedPlayers := seq(MaxWaitingRoomPlayers, _ => '\0');
      loggedPlayersCount := 0;
      startCountdown := -1;
      cursorPos := 0;
      new;
      StrNCopy(address, defaultAddr, MaxServerAddrLen);
      cursorPos := AddressLength();
    }

    /** strlen of the address field. */
    method AddressLength() returns (n: int)
      requires address.Length == MaxServerAddrLen && |CStr(address[..])| < MaxServerAddrLen
      ensures n == |ServerAddr()|
    {
      ghost var text := CStr(address[..]);
      assert address[..][|text|] == '\0';
      assert forall k :: 0 <= k < |text| ==> address[..][k] == text[k] && text[k] != '\0';
      n := 0;
      while address[n] != '\0'
        invariant 0 <= n <= |text|
        decreases |text| - n
      {
        n := n + 1;
      }
    }

    /**
     * The insertion loop of menu_handle_key: the cells from the NUL down to
     * the position move one cell right, then the key takes the position.
     */
    method Insert(len: int, at: int, key: Key)
      requires address.Length == MaxServerAddrLen && len == |CStr(address[..])| < MaxServerAddrLen - 1
      requires 0 <= at <= len && 32 <= key <= 126
      modifies address
      ensures CStr(address[..]) == old(CStr(address[..]))[..at] + [key as char] + old(CStr(address[..]))[at..]
    {
      ghost var before := address[..];
      ghost var text := CStr(before);
      assert before[len] == '\0';
      var i := len;
      while i >= at
        invariant at - 1 <= i <= len
        invariant forall k :: 0 <= k <= i + 1 ==> address[k] == before[k]
        invariant forall k :: i + 2 <= k <= len + 1 ==> address[k] == before[k - 1]
        invariant forall k :: len + 2 <= k < address.Length ==> address[k] == before[k]
      {
        address[i + 1] := address[i];
        i := i - 1;
      }
      address[at] := key as char;
      ghost var typed := text[..at] + [key as char] + text[at..];
      assert address[..][..len + 1] == typed[..len + 1] by {
        forall k | 0 <= k < len + 1
          ensures address[k] == typed[k]
        {
          if k < at {
            assert before[k] == text[k];
          } else if k > at {
            assert before[k - 1] == text[k - 1];
          }
        }
      }
      CStrOfPrefix(address[..], typed, len + 1);
    }

    /**
     * The removal loop of menu_handle_key (Backspace and Delete): the
     * cells after the position, the NUL included, move one cell left.
     */
    method Remove(len: int, at: int)
      requires address.Length == MaxServerAddrLen && len == |CStr(address[..])| < MaxServerAddrLen
      requires 0 <= at < len
      modifies address
      ensures CStr(address[..]) == old(CStr(address[..]))[..at] + old(CStr(address[..]))[at + 1..]
    {
      ghost var before := address[..];
      ghost var text := CStr(before);
      assert before[len] == '\0';
      var i := at;
      while i < len
        invariant at <= i <= len
        invariant forall k :: 0 <= k < at ==> address[k] == before[k]
        invariant forall k :: at <= k < i ==> address[k] == before[k + 1]
        invariant forall k :: i <= k < address.Length ==> address[k] == before[k]
      {
        address[i] := address[i + 1];
        i := i + 1;
      }
      ghost var cut := text[..at] + text[at + 1..];
      assert address[..][..len - 1] == cut[..len - 1] by {
        forall k | 0 <= k < len - 1
          ensures address[k] == cut[k]
        {
          if k < at {
            assert before[k] == text[k];
          } else {
            assert before[k + 1] == text[k + 1];
          }
        }
      }
      CStrOfPrefix(address[..], cut, len - 1);
    }

    /**
     * menu_handle_key: the focused address field edits itself as
     * `EditAddress` says; a key it lets pass goes to the focused character
     * field, as `EditCharacter` says.  A handled key returns 0, any other
     * key is returned unchanged.  Only the two fields change.
     */
    method HandleKey(key: Key) returns (unhandled: int)
      requires Valid()
      modifies this, address
      ensures Valid()
      ensures var edit := if old(addressFocus) then EditAddress(old(ServerAddr()), old(cursorPos), key) else Passed;
        var typed := if old(characterFocus) then EditCharacter(key) else Ignored;
        && (edit.Edited? ==> ServerAddr() == edit.text && cursorPos == edit.cursor && character == old(character))
        && (edit.Passed? ==> ServerAddr() == old(ServerAddr()) && cursorPos == old(cursorPos))
        && (edit.Passed? && typed.Typed? ==> character == typed.c)
        && (edit.Passed? && typed.Ignored? ==> character == old(character))
        && unhandled == PassedKey(old(addressFocus), old(characterFocus), old(ServerAddr()), old(cursorPos), key)
      ensures Status() == old(Status())
      ensures addressFocus == old(addressFocus) && characterFocus == old(characterFocus)
    {
      var handled := false;
      if addressFocus {
        handled := EditAddressField(key);
      }
      if !handled && characterFocus {
        handled := EditCharacterField(key);
      }
      unhandled := if handled then 0 else key;
    }

    /** The address field's part of menu_handle_key: the edit `EditAddress` describes, and whether the key was taken. */
    method EditAddressField(key: Key) returns (handled: bool)
      requires Valid()
      modifies this, address
      ensures Valid()
      ensures var edit := EditAddress(old(ServerAddr()), old(cursorPos), key);
        && handled == edit.Edited?
        && (edit.Edited? ==> ServerAddr() == edit.text && cursorPos == edit.cursor)
        && (edit.Passed? ==> ServerAddr() == old(ServerAddr()) && cursorPos == old(cursorPos))
      ensures character == old(character) && Status() == old(Status())
      ensures addressFocus == old(addressFocus) && characterFocus == old(characterFocus)
    {
      var len := AddressLength();
      handled := true;
      if 32 <= key <= 126 && len < MaxServerAddrLen - 1 {
        Insert(len, cursorPos, key);
        cursorPos := cursorPos + 1;
      } else if IsBackspace(key) || key == KeyDc {
        DeleteAtCursor(len, key);
      } else if key == KeyLeft || key == KeyRight || key == KeyHome || key == KeyEnd {
        MoveCursor(len, key);
      } else {
        handled := false;
      }
    }

    /** Backspace and Delete in the address field. */
    method DeleteAtCursor(len: int, key: Key)
      requires Valid() && len == |ServerAddr()| && (IsBackspace(key) || key == KeyDc)
      requires !(32 <= key <= 126 && len < MaxServerAddrLen - 1)
      modifies this, address
      ensures Valid()
      ensures var edit := EditAddress(old(ServerAddr()), old(cursorPos), key);
        edit.Edited? && ServerAddr() == edit.text && cursorPos == edit.cursor
      ensures character == old(character) && Status() == old(Status())
      ensures addressFocus == old(addressFocus) && characterFocus == old(characterFocus)
    {
      if IsBackspace(key) {
        if cursorPos > 0 {
          Remove(len, cursorPos - 1);
          cursorPos := cursorPos - 1;
        }
      } else if cursorPos < len {
        Remove(len, cursorPos);
      }
    }

    /** Left, Right, Home and End in the address field: only the cursor moves. */
    method MoveCursor(len: int, key: Key)
      requires Valid() && len == |ServerAddr()| && (key == KeyLeft || key == KeyRight || key == KeyHome || key == KeyEnd)
      modifies this
      ensures Valid() && ServerAddr() == old(ServerAddr())
      ensures EditAddress(old(ServerAddr()), old(cursorPos), key) == Edited(ServerAddr(), cursorPos)
      ensures character == old(character) && Status() == old(Status())
      ensures addressFocus == old(addressFocus) && characterFocus == old(characterFocus)
    {
      if key == KeyLeft {
        if cursorPos > 0 {
          cursorPos := cursorPos - 1;
        }
      } else if key == KeyRight {
        if cursorPos < len {
          cursorPos := cursorPos + 1;
        }
      } else if key == KeyHome {
        cursorPos := 0;
      } else {
        cursorPos := len;
      }
    }

    /** The character field's part of menu_handle_key: the edit `EditCharacter` describes, and whether the key was taken. */
    method EditCharacterField(key: Key) returns (handled: bool)
      requires Valid()
      modifies this
      ensures Valid() && ServerAddr() == old(ServerAddr()) && cursorPos == old(cursorPos)
      ensures handled == EditCharacter(key).Typed?
      ensures character == (if handled then EditCharacter(key).c else old(character))
      ensures Status() == old(Status())
      ensures addressFocus == old(addressFocus) && characterFocus == old(characterFocus)
    {
      handled := true;
      if 'A' as int <= key <= 'Z' as int || 'a' as int <= key <= 'z' as int {
        character := (if key >= 'a' as int then key - 'a' as int + 'A' as int else key) as char;
      } else if IsBackspace(key) || key == KeyDc {
        character := '\0';
      } else {
        handled := false;
      }
    }

    /** menu_has_compatible_version: assumed without version info, otherwise a compatibility above 0. */
    predicate HasCompatibleVersion()
      reads this
    {
      !hasVersionInfo || versionInfo.compatibility > 0
    }

    /** menu_is_server_full: the rule of `ServerFull` on the menu's server info; never before the info arrives. */
    predicate IsServerFull()
      reads this
      ensures IsServerFull() ==> serverInfo.hasInfo
      ensures IsServerFull() == ServerFull(Status().serverInfo)
    {
      ServerFull(serverInfo)
    }

    /** menu_is_logged: once logged in, focus is on neither input field. */
    predicate IsLogged()
      reads this
      ensures IsLogged() ==> !FocusFor(connectionStatus, HasCompatibleVersion(), loginStatus).1
      ensures IsLogged() <==> Status().loginStatus == Logged
    {
      loginStatus == Logged
    }

    /** menu_is_connected: while not connected, the address field has the focus. */
    predicate IsConnected()
      reads this
      ensures !IsConnected() ==> FocusFor(connectionStatus, HasCompatibleVersion(), loginStatus).0
      ensures IsConnected() <==> Status().connectionStatus == Connected
    {
      connectionStatus == Connected
    }

    /** menu_update: the focus follows `FocusFor`.  (The waiting-room animation is not part of this model.) */
    method Update()
      requires Valid()
      modifies this
      ensures Valid() && ServerAddr() == old(ServerAddr()) && cursorPos == old(cursorPos) && character == old(character)
      ensures Status() == old(Status())
      ensures (addressFocus, characterFocus) == FocusFor(connectionStatus, HasCompatibleVersion(), loginStatus)
    {
      if connectionStatus != Connected || !HasCompatibleVersion() {
        addressFocus := true;
        characterFocus := false;
      } else if loginStatus != Logged {
        addressFocus := false;
        characterFocus := true;
      } else {
        addressFocus := false;
        characterFocus := false;
      }
    }

    /** menu_set_connection_status */
    method SetConnectionStatus(status: ConnectionStatus)
      requires Valid()
      modifies this
      ensures Valid() && ServerAddr() == old(ServerAddr()) && cursorPos == old(cursorPos) && character == old(character)
      ensures addressFocus == old(addressFocus) && characterFocus == old(characterFocus)
      ensures Status() == WithConnection(old(Status()), status)
    {
      connectionStatus := status;
      if status != Connected {
        serverInfo := serverInfo.(hasInfo := false);
        hasVersionInfo := false;
        loginStatus := NotLogged;
        loggedPlayersCount := 0;
      }
    }

    /** menu_set_login_status */
    method SetLoginStatus(status: LoginStatusType)
      requires Valid()
      modifies this
      ensures Valid() && ServerAddr() == old(ServerAddr()) && cursorPos == old(cursorPos) && character == old(character)
      ensures addressFocus == old(addressFocus) && characterFocus == old(characterFocus)
      ensures Status() == old(Status()).(loginStatus := status)
    {
      loginStatus := status;
    }

    /** menu_set_version_info: the version is kept to the 31 characters its field holds. */
    method SetVersionInfo(version: seq<char>, compatibility: int)
      requires Valid()
      modifies this
      ensures Valid() && ServerAddr() == old(ServerAddr()) && cursorPos == old(cursorPos) && character == old(character)
      ensures addressFocus == old(addressFocus) && characterFocus == old(characterFocus)
      ensures Status() == old(Status()).(hasVersionInfo := true,
        versionInfo := VersionInfo(CStr(version)[..Min(|CStr(version)|, VersionCapacity - 1)], compatibility))
    {
      var text := CStr(version);
      versionInfo := VersionInfo(text[..Min(|text|, VersionCapacity - 1)], compatibility);
      hasVersionInfo := true;
    }

    /** menu_set_server_info */
    method SetServerInfo(udpPort: int, mapSize: int, winnerPoints: int, maxPlayers: int)
      requires Valid()
      modifies this
      ensures Valid() && ServerAddr() == old(ServerAddr()) && cursorPos == old(cursorPos) && character == old(character)
      ensures addressFocus == old(addressFocus) && characterFocus == old(characterFocus)
      ensures Status() == old(Status()).(serverInfo := old(serverInfo).(hasInfo := true,
        udpPort := udpPort, mapSize := mapSize, winnerPoints := winnerPoints, maxPlayers := maxPlayers))
    {
      serverInfo := serverInfo.(hasInfo := true, udpPort := udpPort, mapSize := mapSize,
        winnerPoints := winnerPoints, maxPlayers := maxPlayers);
    }

    /** menu_set_players: see `WithPlayers`. */
    method SetPlayers(players: seq<char>, count: int)
      requires Valid() && 0 <= count && Min(count, MaxWaitingRoomPlayers) <= |players|
      modifies this
      ensures Valid() && ServerAddr() == old(ServerAddr()) && cursorPos == old(cursorPos) && character == old(character)
      ensures addressFocus == old(addressFocus) && characterFocus == old(characterFocus)
      ensures Status() == WithPlayers(old(Status()), players, count)
    {
      loggedPlayersCount := count;
      var n := Min(count, MaxWaitingRoomPlayers);
      loggedPlayers := players[..n] + loggedPlayers[n..];
      serverInfo := serverInfo.(currentPlayers := n);
    }

    /** menu_set_countdown */
    method SetCountdown(seconds: int)
      requires Valid()
      modifies this
      ensures Valid() && ServerAddr() == old(ServerAddr()) && cursorPos == old(cursorPos) && character == old(character)
      ensures addressFocus == old(addressFocus) && characterFocus == old(characterFocus)
      ensures Status() == old(Status()).(startCountdown := seconds)
    {
      startCountdown := seconds;
    }

    /** menu_set_udp_confirmed */
    method SetUdpConfirmed(confirmed: int)
      requires Valid()
      modifies this
      ensures Valid() && ServerAddr() == old(ServerAddr()) && cursorPos == old(cursorPos) && character == old(character)
      ensures addressFocus == old(addressFocus) && characterFocus == old(characterFocus)
      ensures Status() == old(Status()).(serverInfo := old(serverInfo).(udpConfirmed := confirmed))
    {
      serverInfo := serverInfo.(udpConfirmed := confirmed);
    }
  }
}
