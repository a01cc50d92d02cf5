/** The request handlers of the BrlAPI server for authorized connections
    (Programs/brlapi_server.c, handleGetDriverName to handleResumeDriver) and
    the dispatch of processRequest.  Each handler is one atomic step from a
    server state to the next, with the reply it writes and what it asks of
    the braille driver. */
module BrlapiHandlers {
  import opened Common
  import opened BrlapiProtocol
  import opened BrlapiTty
  import opened BrlapiKeys
  import opened BrlapiWindow
  import opened BrlapiServer

  /** Longest driver name a client may give (BRLAPI_MAXNAMELENGTH). */
  const MaxNameLength: nat := 31

  /** Magic word of the raw-mode and suspend packets (BRLAPI_DEVICE_MAGIC);
      the value stands in for the one of the protocol header, which is not
      part of this model. */
  const DeviceMagic: nat := 0xDEAD_BEEF

  /** What a handler asks of the braille driver besides its reply. */
  datatype DriverAction =
    | NoAction
    | SendRaw(bytes: seq<byte>)
    | SuspendIfRunning
    | ResumeIfStopped
    | ResumeThenReset  // resume if stopped, then reset the driver if it is running
    | ResetDriver
    | RestartDriver

  /** One handler step: the next state, the reply, the driver action. */
  datatype Outcome = Outcome(s: Server, reply: Reply, action: DriverAction)

  /** A check that either yields a value or refuses with an error code. */
  datatype Checked<T> = Ok(value: T) | Refused(code: ErrorCode)

  /** The state unchanged and an error sent back. */
  function Refuse(s: Server, code: ErrorCode): (o: Outcome)
    ensures o.s == s && o.reply == Error(code) && o.action == NoAction
  {
    Outcome(s, Error(code), NoAction)
  }

  /** The state with connection `c`'s record replaced. */
  function Update(s: Server, c: ConnId, conn: Connection): (s': Server)
    requires c in s.conns
    ensures s'.conns.Keys == s.conns.Keys && s'.conns[c] == conn
    ensures forall d :: d in s.conns && d != c ==> s'.conns[d] == s.conns[d]
    ensures s'.ttys == s.ttys && s'.notty == s.notty
  {
    s.(conns := s.conns[c := conn])
  }

  predicate Attached(s: Server, c: ConnId) {
    c in AllConns(s.ttys)
  }

  // ---------------------------------------------------------------------------
  // GETDRIVERNAME, GETDISPLAYSIZE (handleGetDriver, handleGetDisplaySize)
  // ---------------------------------------------------------------------------

  /** The driver's name with its terminating NUL, unless the packet is not
      empty or the connection is in raw mode. */
  function HandleGetDriverName(s: Server, c: ConnId, content: seq<byte>): (o: Outcome)
    requires c in s.conns
    ensures o.s == s && o.action == NoAction
    ensures o.reply.Answer? <==> |content| == 0 && !s.conns[c].raw
    ensures o.reply.Answer? ==> o.reply.data == s.driver.name + [0]
    ensures |content| != 0 ==> o.reply == Error(InvalidPacket)
  {
    if |content| != 0 then Refuse(s, InvalidPacket)
    else if s.conns[c].raw then Refuse(s, IllegalInstruction)
    else Outcome(s, Answer(s.driver.name + [0]), NoAction)
  }

  /** The display's columns and rows as two 32-bit words (displayDimensions). */
  function HandleGetDisplaySize(s: Server, c: ConnId, content: seq<byte>): (o: Outcome)
    requires c in s.conns
    ensures o.s == s && o.action == NoAction
    ensures o.reply.Answer? <==> |content| == 0 && !s.conns[c].raw
    ensures |content| != 0 ==> o.reply == Error(InvalidPacket)
  {
    if |content| != 0 then Refuse(s, InvalidPacket)
    else if s.conns[c].raw then Refuse(s, IllegalInstruction)
    else Outcome(s, Answer(WordBytes(s.columns) + WordBytes(s.rows)), NoAction)
  }

  /** A client reads back the display's dimensions from the answer. */
  lemma DisplaySizeAnswer(s: Server, c: ConnId)
    requires c in s.conns && !s.conns[c].raw
    requires s.columns < 0x1_0000_0000 && s.rows < 0x1_0000_0000
    ensures var data := HandleGetDisplaySize(s, c, []).reply.data;
      |data| == 8 && BigEndian(data[..4]) == s.columns && BigEndian(data[4..]) == s.rows
  {
    var data := HandleGetDisplaySize(s, c, []).reply.data;
    assert data[..4] == WordBytes(s.columns);
    assert data[4..] == WordBytes(s.rows);
    WordRoundTrip(s.columns);
    WordRoundTrip(s.rows);
  }

  // ---------------------------------------------------------------------------
  // ENTERTTYMODE: the packet
  // ---------------------------------------------------------------------------

  /** The words of a byte string of `n` 32-bit big-endian words. */
  function Words(bytes: seq<byte>, n: nat): (ws: seq<nat>)
    requires |bytes| == 4 * n
    ensures |ws| == n
    decreases n
  {
    if n == 0 then [] else [BigEndian(bytes[..4])] + Words(bytes[4..], n - 1)
  }

  function PathBytes(path: seq<nat>): (bs: seq<byte>)
    ensures |bs| == 4 * |path|
  {
    if |path| == 0 then [] else WordBytes(path[0]) + PathBytes(path[1..])
  }

  predicate WordSized(path: seq<nat>) {
    forall i :: 0 <= i < |path| ==> path[i] < 0x1_0000_0000
  }

  lemma {:induction false} PathRoundTrip(path: seq<nat>)
    requires WordSized(path)
    ensures Words(PathBytes(path), |path|) == path
  {
    if |path| > 0 {
      var bs := PathBytes(path);
      assert bs[..4] == WordBytes(path[0]);
      assert bs[4..] == PathBytes(path[1..]);
      WordRoundTrip(path[0]);
      assert WordSized(path[1..]) by {
        assert forall i :: 0 <= i < |path[1..]| ==> path[1..][i] == path[i + 1];
      }
      PathRoundTrip(path[1..]);
    }
  }

  /** An ENTERTTYMODE request: the tty path (numbers from the root) and the
      driver name bytes, as sent. */
  datatype TtyRequest = TtyRequest(path: seq<nat>, name: seq<byte>)

  /** Reads an ENTERTTYMODE packet: the number of ttys, the path, one
      length byte and the name.  `stale` is what the packet buffer holds
      after the content (left by earlier packets): when the content ends
      right after the path, the length byte is read from there. */
  function ParseEnterTty(content: seq<byte>, stale: seq<byte>): (r: Checked<TtyRequest>)
    requires |stale| >= 1
    ensures r.Ok? ==> |r.value.name| <= MaxNameLength
  {
    if |content| < 4 then Refused(InvalidPacket)
    else
      var n := BigEndian(content[..4]);
      var rest := content[4..];
      if |rest| < 4 * n then Refused(InvalidPacket)
      else
        var after := rest[4 * n..];
        var len := ByteValue(if |after| == 0 then stale[0] else after[0]);
        if len > MaxNameLength then Refused(InvalidParameter)
        // With nothing left, the unsigned count of remaining bytes wraps
        // below zero and cannot equal the length.
        else if |after| == 0 || |after| - 1 != len then Refused(InvalidPacket)
        else Ok(TtyRequest(Words(rest[..4 * n], n), after[1..]))
  }

  /** The packet a client library sends for `req`. */
  function EncodeEnterTty(req: TtyRequest): seq<byte> {
    WordBytes(|req.path|) + (PathBytes(req.path) + ([ToByte(|req.name|)] + req.name))
  }

  /** Every request a client can express survives the trip through the
      packet, whatever the buffer holds after it. */
  lemma EnterTtyRoundTrip(req: TtyRequest, stale: seq<byte>)
    requires |req.path| < 0x1_0000_0000 && WordSized(req.path) && |req.name| <= MaxNameLength
    requires |stale| >= 1
    ensures ParseEnterTty(EncodeEnterTty(req), stale) == Ok(req)
  {
    var bytes := EncodeEnterTty(req);
    var n := |req.path|;
    WordRoundTrip(n);
    assert bytes[..4] == WordBytes(n);
    var rest := bytes[4..];
    assert rest == PathBytes(req.path) + ([ToByte(|req.name|)] + req.name);
    assert rest[..4 * n] == PathBytes(req.path);
    var after := rest[4 * n..];
    assert after == [ToByte(|req.name|)] + req.name;
    assert after[0] == ToByte(|req.name|);
    ValueOfToByte(|req.name|);
    assert after[1..] == req.name;
    PathRoundTrip(req.path);
  }

  /** The bytes of a C string: everything before the first NUL. */
  function UpToNul(bytes: seq<byte>): (r: seq<byte>)
    ensures r <= bytes && 0 !in r
    ensures |r| < |bytes| ==> bytes[|r|] == 0
  {
    if |bytes| == 0 || bytes[0] == 0 then []
    else [bytes[0]] + UpToNul(bytes[1..])
  }

  /** The key mode a name asks for: commands for the empty name, key codes
      for the driver's own name when the driver can pass them. */
  function NameMode(name: seq<byte>, driver: Driver): (r: Checked<KeyMode>)
    ensures r == Ok(Commands) <==> UpToNul(name) == []
    ensures r == Ok(KeyCodes) <==> UpToNul(name) != [] && UpToNul(name) == driver.name && driver.keyCapable
  {
    var z := UpToNul(name);
    if z == [] then Ok(Commands)
    else if z != driver.name then Refused(InvalidParameter)
    else if !driver.keyCapable then Refused(OpNotSupported)
    else Ok(KeyCodes)
  }

  // ---------------------------------------------------------------------------
  // ENTERTTYMODE: the step
  // ---------------------------------------------------------------------------

  /** The key-table lookup resolves every mask the default key set needs. */
  ghost predicate MaskResolves(mask: MaskLookup) {
    mask(AllKeys, 0).Some? && forall k :: k in ReservedCommands ==> mask(OneCommand, k).Some?
  }

  /** Moves a connection outside tty mode into the ring of the tty `path`
      names, creating the ttys missing on the way, with record `conn`. */
  function JoinTty(s: Server, c: ConnId, path: seq<nat>, conn: Connection): (s': Server)
    requires c in s.conns
    ensures s'.conns == s.conns[c := conn] && s'.notty == Remove(s.notty, c)
    ensures s'.rawHolder == s.rawHolder && s'.suspendHolder == s.suspendHolder
    ensures s'.unauth == s.unauth && s'.nextId == s.nextId && s'.driver == s.driver
    ensures s'.displaySize == s.displaySize && s'.columns == s.columns && s'.rows == s.rows
  {
    var (ttys1, target) := EnsurePath(s.ttys, path);
    EnsurePathTarget(s.ttys, path);
    s.(ttys := AttachAt(ttys1, target, c), notty := Remove(s.notty, c), conns := s.conns[c := conn])
  }

  /** handleEnterTtyMode once the packet is read: the default keys for
      `how` are added to the connection's list and a blank window replaces
      its old one; then the path is followed, creating the missing ttys,
      and the connection is moved into the ring of the tty it names.  A
      connection already in tty mode keeps its tty and gets an error.
      `keepNewWindow` chooses between the handler as written, which frees the
      new window again when the path does not exist yet (false), and the
      corrected handler, which keeps the new blank window (true). */
  function AttachTty(s: Server, c: ConnId, path: seq<nat>, how: KeyMode, mask: MaskLookup, keepNewWindow: bool): (o: Outcome)
    requires c in s.conns
  {
    var conn := s.conns[c];
    var init := InitializeAcceptedKeys(conn.keys, how, mask);
    if !init.ok then
      Outcome(Update(s, c, conn.(keys := [], window := None)), Error(NoMemory), NoAction)
    else
      var conn1 := conn.(keys := init.ranges, window := Some(Blank(s.displaySize)));
      var here := Locate(s.ttys, c);
      var idx := Walk(s.ttys, path);
      if |idx| < |path| && here.Some? then
        Outcome(Update(s, c, if keepNewWindow then conn1 else conn1.(window := None)), Error(InvalidParameter), NoAction)
      else if here.Some? then
        var target := EnsurePath(s.ttys, path).1;
        var code := if here.value == target then (if conn.how == how then IllegalInstruction else OpNotSupported)
                    else InvalidParameter;
        Outcome(Update(s, c, conn1), Error(code), NoAction)
      else
        Outcome(JoinTty(s, c, path, conn1.(how := how)), Ack, NoAction)
  }

  function EnterTtyWith(s: Server, c: ConnId, content: seq<byte>, stale: seq<byte>, mask: MaskLookup, keepNewWindow: bool): (o: Outcome)
    requires c in s.conns && |stale| >= 1
  {
    if s.conns[c].raw then Refuse(s, IllegalInstruction)
    else match ParseEnterTty(content, stale)
      case Refused(code) => Refuse(s, code)
      case Ok(req) =>
        match NameMode(req.name, s.driver)
        case Refused(code) => Refuse(s, code)
        case Ok(how) => AttachTty(s, c, req.path, how, mask, keepNewWindow)
  }

  /** handleEnterTtyMode as written. */
  function EnterTtyAsWritten(s: Server, c: ConnId, content: seq<byte>, stale: seq<byte>, mask: MaskLookup): Outcome
    requires c in s.conns && |stale| >= 1
  {
    EnterTtyWith(s, c, content, stale, mask, false)
  }

  /** handleEnterTtyMode as corrected: an attached connection that names a
      path that does not exist keeps the blank window the handler has just
      given it, instead of being left without one. */
  function HandleEnterTty(s: Server, c: ConnId, content: seq<byte>, stale: seq<byte>, mask: MaskLookup): Outcome
    requires c in s.conns && |stale| >= 1
  {
    EnterTtyWith(s, c, content, stale, mask, true)
  }

  // ---------------------------------------------------------------------------
  // ENTERTTYMODE: properties
  // ---------------------------------------------------------------------------

  /** Replacing one connection's record keeps the server valid when the new
      record keeps its authorization and modes and suits where the
      connection is. */
  lemma UpdateValid(s: Server, c: ConnId, conn: Connection)
    requires Valid(s) && c in s.conns
    requires conn.auth == s.conns[c].auth && conn.raw == s.conns[c].raw && conn.suspend == s.conns[c].suspend
    requires Attached(s, c) ==> conn.window.Some? && Fits(conn.window.value, s.displaySize)
    requires !Attached(s, c) ==> conn.window.None? && conn.keys == []
    ensures Valid(Update(s, c, conn))
  {
    var s' := Update(s, c, conn);
    assert s'.conns.Keys == s.conns.Keys;
    UnauthorizedSameAuth(s.conns, c, conn);
    assert OthersKept(s, s', c);
    OthersOk(s, s', c);
    assert ConnOk(s, c);
  }

  /** Joining a tty puts the connection at the front of the ring of the
      tty the path names and takes it out of `notty`; the tree gains it and
      nothing else. */
  lemma JoinTtyPlace(s: Server, c: ConnId, path: seq<nat>, conn: Connection)
    requires RingsValid(s) && c in s.conns && !Attached(s, c)
    ensures var s' := JoinTty(s, c, path, conn);
      var target := EnsurePath(s.ttys, path).1;
      && ValidIndex(s'.ttys, target) && NumbersAlong(s'.ttys, target) == path
      && NodeAt(s'.ttys, target).ring[0] == c && c !in s'.notty
      && multiset(AllConns(s'.ttys)) == multiset(AllConns(s.ttys)) + multiset{c}
      && multiset(s'.notty) == multiset(s.notty)[c := 0]
      && multiset(s.notty)[c] == 1
  {
    EnsurePathEffect(s.ttys, path);
    EnsurePathTarget(s.ttys, path);
    Placement(s, c);
    var s' := JoinTty(s, c, path, conn);
    assert multiset(s'.notty)[c] == 0;
  }

  /** Joining moves `c` from `notty` into the tree and touches no other
      connection's place. */
  lemma JoinTtyRings(s: Server, c: ConnId, path: seq<nat>, conn: Connection)
    requires RingsValid(s) && c in s.conns && !Attached(s, c)
    ensures var s' := JoinTty(s, c, path, conn);
      && Attached(s', c) && multiset(AllConns(s.ttys))[c] == 0
      && multiset(AllConns(s'.ttys)) == multiset(AllConns(s.ttys)) + multiset{c}
      && multiset(s'.notty) == multiset(s.notty)[c := 0]
      && multiset(s.notty)[c] == 1
  {
    var s' := JoinTty(s, c, path, conn);
    JoinTtyPlace(s, c, path, conn);
    assert multiset(AllConns(s'.ttys))[c] == 1;
  }

  /** Every connection stays well placed when `c` joins a tty. */
  lemma JoinTtyConnsOk(s: Server, c: ConnId, path: seq<nat>, conn: Connection)
    requires Valid(s) && c in s.conns && !Attached(s, c)
    requires conn.auth == Authorized && conn.window.Some? && Fits(conn.window.value, s.displaySize)
    ensures var s' := JoinTty(s, c, path, conn); forall d :: d in s'.conns ==> ConnOk(s', d)
  {
    var s' := JoinTty(s, c, path, conn);
    JoinTtyRings(s, c, path, conn);
    assert OthersKept(s, s', c) by {
      assert multiset(AllConns(s'.ttys))[c := 0] == multiset(AllConns(s.ttys))[c := 0];
      SameMembersBut(AllConns(s.ttys), AllConns(s'.ttys), c);
    }
    OthersOk(s, s', c);
    assert ConnOk(s', c) by {
      assert ConnOk(s, c);
    }
  }

  /** Joining a tty keeps the server valid. */
  lemma JoinTtyValid(s: Server, c: ConnId, path: seq<nat>, conn: Connection)
    requires Valid(s) && c in s.conns && !Attached(s, c) && s.conns[c].auth == Authorized
    requires conn.auth == Authorized && conn.raw == s.conns[c].raw && conn.suspend == s.conns[c].suspend
    requires conn.window.Some? && Fits(conn.window.value, s.displaySize)
    ensures Valid(JoinTty(s, c, path, conn))
  {
    var s' := JoinTty(s, c, path, conn);
    JoinTtyRingsValid(s, c, path, conn);
    assert HoldersValid(s');
    assert forall d :: d in s'.conns ==> ConnOk(s', d) by {
      JoinTtyConnsOk(s, c, path, conn);
    }
    assert s'.unauth == |Unauthorized(s'.conns)| by {
      UnauthorizedSameAuth(s.conns, c, conn);
    }
  }

  /** Moving a connection from `notty` into the tree keeps every connection
      in exactly one ring. */
  lemma JoinTtyRingsValid(s: Server, c: ConnId, path: seq<nat>, conn: Connection)
    requires RingsValid(s) && c in s.conns && !Attached(s, c)
    ensures RingsValid(JoinTty(s, c, path, conn))
  {
    var s' := JoinTty(s, c, path, conn);
    JoinTtyPlace(s, c, path, conn);
    assert s'.conns.Keys == s.conns.Keys;
    MoveIntoTree(multiset(AllConns(s.ttys)), multiset(s.notty), multiset(s.conns.Keys), c);
  }

  /** The corrected step keeps the server valid. */
  lemma AttachTtyValid(s: Server, c: ConnId, path: seq<nat>, how: KeyMode, mask: MaskLookup)
    requires Valid(s) && c in s.conns && s.conns[c].auth == Authorized
    requires MaskResolves(mask)
    ensures Valid(AttachTty(s, c, path, how, mask, true).s)
  {
    var conn := s.conns[c];
    var init := InitializeAcceptedKeys(conn.keys, how, mask);
    assert init.ok;
    var conn1 := conn.(keys := init.ranges, window := Some(Blank(s.displaySize)));
    if Attached(s, c) {
      assert Locate(s.ttys, c).Some?;
      assert AttachTty(s, c, path, how, mask, true).s == Update(s, c, conn1);
      UpdateValid(s, c, conn1);
    } else {
      assert Locate(s.ttys, c).None?;
      assert AttachTty(s, c, path, how, mask, true).s == JoinTty(s, c, path, conn1.(how := how));
      JoinTtyValid(s, c, path, conn1.(how := how));
    }
  }

  lemma HandleEnterTtyValid(s: Server, c: ConnId, content: seq<byte>, stale: seq<byte>, mask: MaskLookup)
    requires Valid(s) && c in s.conns && s.conns[c].auth == Authorized && |stale| >= 1
    requires MaskResolves(mask)
    ensures Valid(HandleEnterTty(s, c, content, stale, mask).s)
  {
    if !s.conns[c].raw && ParseEnterTty(content, stale).Ok? {
      var req := ParseEnterTty(content, stale).value;
      if NameMode(req.name, s.driver).Ok? {
        AttachTtyValid(s, c, req.path, NameMode(req.name, s.driver).value, mask);
      }
    }
  }

  /** The step succeeds exactly for a connection outside tty mode; it then
      sits at the front of the ring of the tty the path names, in the mode
      it asked for, with a blank window, and the tree gained only
      connection-free ttys.  A connection already in tty mode stays where
      it was and gets an error. */
  lemma AttachTtyEffect(s: Server, c: ConnId, path: seq<nat>, how: KeyMode, mask: MaskLookup, o: Outcome)
    requires Valid(s) && c in s.conns && s.conns[c].auth == Authorized
    requires MaskResolves(mask) && o == AttachTty(s, c, path, how, mask, true)
    ensures o.reply == Ack <==> !Attached(s, c)
    ensures o.reply == Ack ==>
      && ValidIndex(o.s.ttys, EnsurePath(s.ttys, path).1) && NumbersAlong(o.s.ttys, EnsurePath(s.ttys, path).1) == path
      && NodeAt(o.s.ttys, EnsurePath(s.ttys, path).1).ring[0] == c && c !in o.s.notty
      && c in o.s.conns && o.s.conns[c].how == how && o.s.conns[c].window == Some(Blank(s.displaySize))
      && multiset(AllConns(o.s.ttys)) == multiset(AllConns(s.ttys)) + multiset{c}
    ensures Attached(s, c) ==> o.reply.Error? && o.s.ttys == s.ttys && o.s.notty == s.notty
  {
    var conn := s.conns[c];
    var init := InitializeAcceptedKeys(conn.keys, how, mask);
    assert init.ok;
    var conn1 := conn.(keys := init.ranges, window := Some(Blank(s.displaySize)));
    if Attached(s, c) {
      assert Locate(s.ttys, c).Some?;
      assert o.s == Update(s, c, conn1);
    } else {
      assert Locate(s.ttys, c).None?;
      assert o == Outcome(JoinTty(s, c, path, conn1.(how := how)), Ack, NoAction);
      JoinTtyPlace(s, c, path, conn1.(how := how));
    }
  }

  /** As written, a connection in tty mode that names a path not yet in the
      tree is refused but stays attached without a window: the server is no
      longer valid, and the next flush that picks this connection reads its
      freed buffers. */
  lemma EnterTtyAsWrittenFreesWindow(s: Server, c: ConnId, content: seq<byte>, stale: seq<byte>, mask: MaskLookup)
    requires Valid(s) && c in s.conns && |stale| >= 1 && MaskResolves(mask)
    requires !s.conns[c].raw && Attached(s, c)
    requires ParseEnterTty(content, stale).Ok?
    requires NameMode(ParseEnterTty(content, stale).value.name, s.driver).Ok?
    requires |Walk(s.ttys, ParseEnterTty(content, stale).value.path)| < |ParseEnterTty(content, stale).value.path|
    ensures WindowFreedInTree(EnterTtyAsWritten(s, c, content, stale, mask), c)
    ensures !Valid(EnterTtyAsWritten(s, c, content, stale, mask).s)
  {
    var o := EnterTtyAsWritten(s, c, content, stale, mask);
    var req := ParseEnterTty(content, stale).value;
    var how := NameMode(req.name, s.driver).value;
    assert o == AttachTty(s, c, req.path, how, mask, false);
    AttachAsWrittenRefused(s, c, req.path, how, mask);
    assert !ConnOk(o.s, c);
  }

  /** As written, an attached connection naming a path not yet in the tree
      is refused and left in place without a window. */
  lemma AttachAsWrittenRefused(s: Server, c: ConnId, path: seq<nat>, how: KeyMode, mask: MaskLookup)
    requires c in s.conns && Attached(s, c) && MaskResolves(mask) && |Walk(s.ttys, path)| < |path|
    ensures AttachTty(s, c, path, how, mask, false).reply == Error(InvalidParameter)
    ensures AttachTty(s, c, path, how, mask, false).s.ttys == s.ttys
    ensures AttachTty(s, c, path, how, mask, false).s.conns[c].window.None?
  {
    var conn := s.conns[c];
    var init := InitializeAcceptedKeys(conn.keys, how, mask);
    assert init.ok;
    assert Locate(s.ttys, c).Some?;
    var conn1 := conn.(keys := init.ranges, window := Some(Blank(s.displaySize)));
    assert AttachTty(s, c, path, how, mask, false) == Outcome(Update(s, c, conn1.(window := None)), Error(InvalidParameter), NoAction);
  }

  /** As corrected, an attached connection naming a path not yet in the
      tree is refused and stays in its ring with a fresh blank window and
      the default keys added to its list again: the window it had before
      the request is not given back, as in C the old one is freed first. */
  lemma AttachRefusedBlankWindow(s: Server, c: ConnId, path: seq<nat>, how: KeyMode, mask: MaskLookup)
    requires c in s.conns && Attached(s, c) && MaskResolves(mask) && |Walk(s.ttys, path)| < |path|
    ensures var o := AttachTty(s, c, path, how, mask, true);
      && o.reply == Error(InvalidParameter) && o.action == NoAction
      && o.s.ttys == s.ttys && o.s.notty == s.notty && Attached(o.s, c)
      && o.s.conns.Keys == s.conns.Keys
      && o.s.conns[c] == s.conns[c].(keys := InitializeAcceptedKeys(s.conns[c].keys, how, mask).ranges,
                                     window := Some(Blank(s.displaySize)))
  {
    var conn := s.conns[c];
    var init := InitializeAcceptedKeys(conn.keys, how, mask);
    assert init.ok;
    assert Locate(s.ttys, c).Some?;
    var conn1 := conn.(keys := init.ranges, window := Some(Blank(s.displaySize)));
    assert AttachTty(s, c, path, how, mask, true) == Outcome(Update(s, c, conn1), Error(InvalidParameter), NoAction);
  }

  /** When the key masks cannot be resolved, the handler (as written and as
      corrected alike) frees the window and the accepted keys but leaves a
      connection already in tty mode in its ring: the server then holds an
      attached connection without a window, so the invariant needs the masks
      to resolve. */
  lemma AttachMaskFailureFreesWindow(s: Server, c: ConnId, path: seq<nat>, how: KeyMode, mask: MaskLookup, keepNewWindow: bool)
    requires Valid(s) && c in s.conns && Attached(s, c)
    requires !InitializeAcceptedKeys(s.conns[c].keys, how, mask).ok
    ensures AttachTty(s, c, path, how, mask, keepNewWindow).reply == Error(NoMemory)
    ensures Attached(AttachTty(s, c, path, how, mask, keepNewWindow).s, c)
    ensures AttachTty(s, c, path, how, mask, keepNewWindow).s.conns[c].window.None?
    ensures AttachTty(s, c, path, how, mask, keepNewWindow).s.conns[c].keys == []
    ensures !Valid(AttachTty(s, c, path, how, mask, keepNewWindow).s)
  {
    var o := AttachTty(s, c, path, how, mask, keepNewWindow);
    var conn := s.conns[c];
    assert o == Outcome(Update(s, c, conn.(keys := [], window := None)), Error(NoMemory), NoAction);
    assert o.s.ttys == s.ttys;
    assert !ConnOk(o.s, c);
  }

  /** The request is refused, yet the connection stays in the tree without a
      window. */
  predicate WindowFreedInTree(o: Outcome, c: ConnId) {
    && o.reply == Error(InvalidParameter) && Attached(o.s, c)
    && c in o.s.conns && o.s.conns[c].window.None?
  }

  /** Connection 7, authorized, in command mode, shows text on tty 1 with a
      40-cell window. */
  function FreedWindowServer(): Server {
    var conn := Connection(Authorized, false, false, Commands, ToDisplay, Some(Blank(40)), [], 0);
    Server(Tty(0, NoFocus, [], [Tty(1, NoFocus, [7], [])]), [], map[7 := conn], None, None,
           0, 0, false, 40, 1, 40, Driver([], false, false, false), 8)
  }

  /** The key mask that resolves every range. */
  function AnyKeyMask(): MaskLookup {
    (t: RangeType, k: KeyCode) => Some(0)
  }

  /** The example server is valid. */
  lemma FreedWindowServerValid()
    ensures Valid(FreedWindowServer())
  {
    var s := FreedWindowServer();
    assert AllConnsList([]) == [];
    assert AllConns(s.ttys.children[0]) == [7];
    assert AllConnsList(s.ttys.children) == [7];
    assert AllConns(s.ttys) == [7];
    assert s.conns.Keys == {7};
    assert RingsValid(s);
    assert HoldersValid(s);
    assert ConnOk(s, 7);
    assert Unauthorized(s.conns) == {};
  }

  /** A server in which the lemma above applies: connection 7 shows text
      on tty 1 and asks for tty 2, which does not exist. */
  lemma FreedWindowExample()
    ensures Valid(FreedWindowServer())
    ensures WindowFreedInTree(EnterTtyAsWritten(FreedWindowServer(), 7, EncodeEnterTty(TtyRequest([2], [])), [0], AnyKeyMask()), 7)
  {
    var s := FreedWindowServer();
    var req := TtyRequest([2], []);
    FreedWindowServerValid();
    assert WordSized([2]);
    EnterTtyRoundTrip(req, [0]);
    assert ChildNumbered(s.ttys.children, 2).None?;
    assert Walk(s.ttys, [2]) == [];
    assert MaskResolves(AnyKeyMask());
    EnterTtyAsWrittenFreesWindow(s, 7, EncodeEnterTty(req), [0], AnyKeyMask());
  }

  // ---------------------------------------------------------------------------
  // SETFOCUS, LEAVETTYMODE (handleSetFocus, doLeaveTty, handleLeaveTtyMode)
  // ---------------------------------------------------------------------------

  /** Sets the focus of the connection's tty to the first word of the packet
      buffer, stored into a C `int`.  The size is not checked: a short packet
      reads `stale` bytes left in the buffer. */
  function HandleSetFocus(s: Server, c: ConnId, content: seq<byte>, stale: seq<byte>): (o: Outcome)
    requires c in s.conns && |stale| >= 4
    ensures o.action == NoAction && o.s.conns == s.conns && o.s.notty == s.notty
    ensures multiset(AllConns(o.s.ttys)) == multiset(AllConns(s.ttys))
    ensures o.reply == Silent <==> !s.conns[c].raw && Attached(s, c)
    ensures o.reply != Silent ==> o.s == s && o.reply == Exception(IllegalInstruction)
    ensures o.reply == Silent ==>
      var idx := Locate(s.ttys, c).value;
      && ValidIndex(o.s.ttys, idx) && NumbersAlong(o.s.ttys, idx) == NumbersAlong(s.ttys, idx)
      && NodeAt(o.s.ttys, idx).focus == WrapInt32(BigEndian((content + stale)[..4]))
      && c in NodeAt(o.s.ttys, idx).ring
  {
    if s.conns[c].raw then Outcome(s, Exception(IllegalInstruction), NoAction)
    else match Locate(s.ttys, c)
      case None => Outcome(s, Exception(IllegalInstruction), NoAction)
      case Some(idx) =>
        var focus := WrapInt32(BigEndian((content + stale)[..4]));
        Outcome(s.(ttys := SetFocusAt(s.ttys, idx, focus)), Silent, NoAction)
  }

  /** A step that keeps the record of every connection and the multiset of
      the tree keeps the server valid. */
  lemma SameConnsValid(s: Server, s': Server)
    requires Valid(s)
    requires s'.conns == s.conns && s'.notty == s.notty && multiset(AllConns(s'.ttys)) == multiset(AllConns(s.ttys))
    requires s'.rawHolder == s.rawHolder && s'.suspendHolder == s.suspendHolder && s'.unauth == s.unauth
    requires s'.nextId == s.nextId && s'.displaySize == s.displaySize && s'.columns == s.columns
    requires s'.rows == s.rows && s'.driver == s.driver
    ensures Valid(s')
  {
    forall d | d in s'.conns ensures ConnOk(s', d) {
      assert ConnOk(s, d);
      assert d in AllConns(s'.ttys) <==> d in multiset(AllConns(s'.ttys));
    }
  }

  lemma HandleSetFocusValid(s: Server, c: ConnId, content: seq<byte>, stale: seq<byte>)
    requires Valid(s) && c in s.conns && |stale| >= 4
    ensures Valid(HandleSetFocus(s, c, content, stale).s)
  {
    SameConnsValid(s, HandleSetFocus(s, c, content, stale).s);
  }

  /** doLeaveTty: the connection leaves its tty for the front of `notty`
      and loses its accepted keys and its window. */
  function DoLeaveTty(s: Server, c: ConnId): (s': Server)
    requires c in s.conns
    ensures s'.conns.Keys == s.conns.Keys
    ensures s'.rawHolder == s.rawHolder && s'.suspendHolder == s.suspendHolder
    ensures s'.unauth == s.unauth && s'.nextId == s.nextId && s'.driver == s.driver
    ensures s'.displaySize == s.displaySize && s'.columns == s.columns && s'.rows == s.rows
  {
    s.(ttys := Detach(s.ttys, c), notty := [c] + s.notty,
       conns := s.conns[c := s.conns[c].(keys := [], window := None)])
  }

  /** Leaving keeps the server valid: the connection is then at the front of
      `notty`, nowhere in the tree, and every other connection stays put. */
  lemma DoLeaveTtyValid(s: Server, c: ConnId)
    requires Valid(s) && c in s.conns && Attached(s, c)
    ensures var s' := DoLeaveTty(s, c);
      && Valid(s') && !Attached(s', c) && s'.notty[0] == c
      && multiset(AllConns(s'.ttys)) == multiset(AllConns(s.ttys))[c := 0]
      && (forall d :: d != c ==> (Attached(s', d) <==> Attached(s, d)))
  {
    var s' := DoLeaveTty(s, c);
    Placement(s, c);
    assert multiset(AllConns(s.ttys))[c] == 1 && multiset(s.notty)[c] == 0;
    MoveIntoNotty(multiset(AllConns(s.ttys)), multiset(s.notty), multiset(s.conns.Keys), c);
    assert multiset(s'.notty) == multiset{c} + multiset(s.notty);
    assert RingsValid(s');
    SameMembersBut(AllConns(s.ttys), AllConns(s'.ttys), c);
    assert OthersKept(s, s', c);
    OthersOk(s, s', c);
    assert !Attached(s', c) by {
      assert multiset(AllConns(s'.ttys))[c] == 0;
    }
    UnauthorizedSameAuth(s.conns, c, s'.conns[c]);
    assert ConnOk(s', c);
  }

  function HandleLeaveTty(s: Server, c: ConnId): (o: Outcome)
    requires c in s.conns
    ensures o.reply == Ack <==> !s.conns[c].raw && Attached(s, c)
    ensures o.reply != Ack ==> o == Refuse(s, IllegalInstruction)
  {
    if s.conns[c].raw || !Attached(s, c) then Refuse(s, IllegalInstruction)
    else Outcome(DoLeaveTty(s, c), Ack, NoAction)
  }

  lemma AddThenDrop(m: multiset<ConnId>, c: ConnId)
    requires m[c] == 0
    ensures (m + multiset{c})[c := 0] == m
  {
    var l := (m + multiset{c})[c := 0];
    forall x ensures l[x] == m[x] {
    }
  }

  lemma DropThenAdd(m: multiset<ConnId>, c: ConnId)
    requires m[c] == 1
    ensures multiset{c} + m[c := 0] == m
  {
    var l := multiset{c} + m[c := 0];
    forall x ensures l[x] == m[x] {
    }
  }

  /** Leaving takes back exactly what joining added to the rings. */
  lemma LeaveGivesBack(s: Server, s1: Server, c: ConnId)
    requires c in s1.conns && Attached(s1, c) && !s1.conns[c].raw
    requires multiset(AllConns(s.ttys))[c] == 0 && multiset(s.notty)[c] == 1
    requires multiset(AllConns(s1.ttys)) == multiset(AllConns(s.ttys)) + multiset{c}
    requires multiset(s1.notty) == multiset(s.notty)[c := 0]
    ensures var o := HandleLeaveTty(s1, c);
      && o.reply == Ack
      && multiset(AllConns(o.s.ttys)) == multiset(AllConns(s.ttys))
      && multiset(o.s.notty) == multiset(s.notty)
      && o.s.conns == s1.conns[c := s1.conns[c].(keys := [], window := None)]
  {
    AddThenDrop(multiset(AllConns(s.ttys)), c);
    DropThenAdd(multiset(s.notty), c);
  }

  /** Leaving right after joining gives back both rings. */
  lemma LeaveAfterJoin(s: Server, c: ConnId, path: seq<nat>, conn: Connection)
    requires RingsValid(s) && c in s.conns && !Attached(s, c) && !conn.raw
    ensures var s1 := JoinTty(s, c, path, conn);
      var o := HandleLeaveTty(s1, c);
      && o.reply == Ack
      && multiset(AllConns(o.s.ttys)) == multiset(AllConns(s.ttys))
      && multiset(o.s.notty) == multiset(s.notty)
      && o.s.conns == s.conns[c := conn.(keys := [], window := None)]
  {
    var s1 := JoinTty(s, c, path, conn);
    JoinTtyRings(s, c, path, conn);
    LeaveGivesBack(s, s1, c);
    UpdateTwice(s.conns, c, conn, conn.(keys := [], window := None));
  }

  /** Entering tty mode and leaving it again gives back the rings and the
      connection's record, except for the key mode it asked for. */
  lemma EnterThenLeave(s: Server, c: ConnId, path: seq<nat>, how: KeyMode, mask: MaskLookup)
    requires Valid(s) && c in s.conns && s.conns[c].auth == Authorized && !s.conns[c].raw
    requires MaskResolves(mask) && !Attached(s, c)
    ensures var s1 := AttachTty(s, c, path, how, mask, true).s;
      var o := HandleLeaveTty(s1, c);
      && o.reply == Ack
      && multiset(AllConns(o.s.ttys)) == multiset(AllConns(s.ttys))
      && multiset(o.s.notty) == multiset(s.notty)
      && o.s.conns == s.conns[c := s.conns[c].(how := how)]
  {
    var conn := s.conns[c];
    var init := InitializeAcceptedKeys(conn.keys, how, mask);
    assert init.ok;
    var conn1 := conn.(keys := init.ranges, window := Some(Blank(s.displaySize)), how := how);
    assert AttachTty(s, c, path, how, mask, true).s == JoinTty(s, c, path, conn1);
    LeaveAfterJoin(s, c, path, conn1);
    assert ConnOk(s, c);
    assert conn1.(keys := [], window := None) == conn.(how := how);
  }

  // ---------------------------------------------------------------------------
  // ACCEPTKEYRANGES, IGNOREKEYRANGES (handleKeyRanges)
  // ---------------------------------------------------------------------------

  /** Adds the packet's ranges to the accepted keys of a connection in tty
      mode, as accepted (`accept`) or as ignored. */
  function HandleKeyRanges(s: Server, c: ConnId, accept: bool, content: seq<byte>): (o: Outcome)
    requires c in s.conns
    ensures o.action == NoAction && o.s.ttys == s.ttys && o.s.notty == s.notty
    ensures o.reply == Ack <==> !s.conns[c].raw && Attached(s, c) && ParseKeyRanges(content).Some?
    ensures o.reply != Ack ==> o.s == s && o.reply.Error?
  {
    var conn := s.conns[c];
    if conn.raw || !Attached(s, c) then Refuse(s, IllegalInstruction)
    else match ParseKeyRanges(content)
      case None => Refuse(s, InvalidPacket)
      case Some(pairs) => Outcome(Update(s, c, conn.(keys := conn.keys + RangeEdits(pairs, accept))), Ack, NoAction)
  }

  /** Some edit of the list covers `code`. */
  predicate Covered(edits: KeyRanges, code: KeyCode) {
    exists i :: 0 <= i < |edits| && InRange(edits[i], code)
  }

  lemma CoveredCons(edits: KeyRanges, code: KeyCode)
    requires |edits| > 0
    ensures Covered(edits, code) <==> InRange(edits[0], code) || Covered(edits[1..], code)
  {
    if Covered(edits, code) {
      var i :| 0 <= i < |edits| && InRange(edits[i], code);
      if i > 0 {
        assert edits[1..][i - 1] == edits[i];
      }
    }
    if Covered(edits[1..], code) {
      var i :| 0 <= i < |edits[1..]| && InRange(edits[1..][i], code);
      assert edits[i + 1] == edits[1..][i];
    }
  }

  /** After a run of edits of one kind, a code any of them covers is
      accepted exactly when they accept; any other code as before. */
  lemma {:induction false} UniformEditsAccept(keys: KeyRanges, edits: KeyRanges, accept: bool, code: KeyCode)
    requires forall i :: 0 <= i < |edits| ==> edits[i].Accept? == accept
    ensures Accepts(keys + edits, code) == if Covered(edits, code) then accept else Accepts(keys, code)
    decreases |edits|
  {
    if |edits| == 0 {
      assert keys + edits == keys;
    } else {
      var e := edits[0];
      assert keys + edits == (keys + [e]) + edits[1..];
      UniformEditsAccept(keys + [e], edits[1..], accept, code);
      AcceptsAppend(keys, e, code);
      CoveredCons(edits, code);
    }
  }

  /** The handler keeps the server valid; after an accepted packet, a code
      one of its ranges covers is accepted exactly for an accept packet, and
      any other code as before. */
  lemma HandleKeyRangesEffect(s: Server, c: ConnId, accept: bool, content: seq<byte>, code: KeyCode)
    requires Valid(s) && c in s.conns
    ensures var o := HandleKeyRanges(s, c, accept, content);
      && Valid(o.s)
      && (o.reply == Ack ==>
            Accepts(o.s.conns[c].keys, code)
            == if Covered(RangeEdits(ParseKeyRanges(content).value, accept), code) then accept
               else Accepts(s.conns[c].keys, code))
  {
    var o := HandleKeyRanges(s, c, accept, content);
    if o.reply == Ack {
      var conn := s.conns[c];
      var edits := RangeEdits(ParseKeyRanges(content).value, accept);
      UniformEditsAccept(conn.keys, edits, accept, code);
      UpdateValid(s, c, conn.(keys := conn.keys + edits));
    }
  }
}
