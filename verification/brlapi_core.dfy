/** What the BrlAPI server does for the screen reader's core
    (Programs/brlapi_server.c): deciding which client fills the display
    (whoFillsTty, api_writeWindow, api_flush) and which client gets a key
    (whoGetsKey, broadcastKey, api__handleKeyEvent, api__handleCommand),
    including the offline/no-op toggle. */
module BrlapiCore {
  import opened Common
  import opened BrlapiTty
  import opened BrlapiKeys
  import opened BrlapiWindow
  import opened BrlapiServer
  import opened BrlapiHandlers

  // ---------------------------------------------------------------------------
  // Who fills the display
  // ---------------------------------------------------------------------------

  /** A connection whose window holds something to show. */
  function Fills(s: Server): ConnId -> bool {
    c => c in s.conns && s.conns[c].bufState != Empty
  }

  /** Some tty on the focus path has a connection with something to show. */
  ghost predicate ShowsOnPath(s: Server) {
    var path := FocusPath(s.ttys);
    exists k, i :: 0 <= k < |path| && 0 <= i < |path[k].ring| && Fills(s)(path[k].ring[i])
  }

  /** setCurrentRootTty: the root follows the virtual terminal in the
      foreground; nothing else changes. */
  function SetCurrentRootTty(s: Server, vt: int): (s': Server)
    ensures s'.ttys.focus == vt && AllConns(s'.ttys) == AllConns(s.ttys)
    ensures Valid(s) ==> Valid(s')
  {
    var s' := s.(ttys := s.ttys.(focus := vt));
    assert AllConns(s'.ttys) == AllConns(s.ttys);
    assert Valid(s) ==> Valid(s') by {
      if Valid(s) {
        forall d | d in s'.conns ensures ConnOk(s', d) { assert ConnOk(s, d); }
      }
    }
    s'
  }

  /** whoFillsTty on the root: the deepest tty of the focus path that has a
      connection with something to show, and there the first such connection
      of its ring. */
  function WhoFillsTty(s: Server): (r: Option<ConnId>)
    ensures DeepestPick(FocusPath(s.ttys), Fills(s), r)
    ensures r.Some? ==> r.value in s.conns && s.conns[r.value].bufState != Empty && Attached(s, r.value)
    ensures r.None? <==> !ShowsOnPath(s)
  {
    RouteIsDeepestPick(s.ttys, Fills(s));
    RouteSound(s.ttys, Fills(s));
    var r := Route(s.ttys, Fills(s));
    NoPickOnPath(FocusPath(s.ttys), Fills(s), r);
    r
  }

  /** The deepest pick is absent exactly when no tty of the path has a
      candidate. */
  lemma NoPickOnPath(path: seq<Tty>, p: ConnId -> bool, r: Option<ConnId>)
    requires DeepestPick(path, p, r)
    ensures r.None? <==> !exists k, i :: 0 <= k < |path| && 0 <= i < |path[k].ring| && p(path[k].ring[i])
  {
    if r.Some? {
      var k :| 0 <= k < |path| && FirstConn(path[k].ring, p) == r;
      var i :| 0 <= i < |path[k].ring| && path[k].ring[i] == r.value && p(r.value);
    }
  }

  /** api_writeWindow: the text the core itself produced reaches the
      display only when the server is not offline, nobody holds the driver
      in raw or suspended mode, and no client on the focus path has
      something to show. */
  datatype CoreWrite = CoreWrite(s: Server, toDisplay: bool)

  function WriteWindow(s: Server, vt: int): (r: CoreWrite)
    ensures r.s == SetCurrentRootTty(s, vt)
    ensures r.toDisplay <==>
      !s.offline && s.suspendHolder.None? && s.rawHolder.None? && !ShowsOnPath(r.s)
  {
    var s' := SetCurrentRootTty(s, vt);
    CoreWrite(s', !s.offline && s.suspendHolder.None? && s.rawHolder.None? && WhoFillsTty(s').None?)
  }

  /** Whatever a client shows, it loses the display to the core as soon as
      the focus moves to a virtual terminal where no client shows anything. */
  lemma CoreWriteAfterFocusMove(s: Server, vt: int)
    requires !s.offline && s.suspendHolder.None? && s.rawHolder.None?
    requires forall c :: c in s.conns && s.conns[c].bufState != Empty ==>
               c !in AllConns(SetCurrentRootTty(s, vt).ttys)
    ensures WriteWindow(s, vt).toDisplay
  {
  }

  /** What api_flush does with the display. */
  datatype FlushResult =
    | Untouched                                   // a client holds the driver suspended
    | ResumeFailed                                // the stopped driver could not be restarted
    | ShowClient(c: ConnId, cells: seq<byte>, cursor: int)
    | RestoreCoreAndSuspend                       // the core is inactive: put its output back, then stop the driver
    | Idle

  datatype Flushed = Flushed(s: Server, result: FlushResult)

  /** api_flush: with a client filling the display (and the server online)
      the client's window goes to the driver, its cells composed by getDots
      and its cursor one position lower, once a stopped driver has been
      resumed; otherwise the driver is stopped when the core is no longer
      active. */
  function Flush(s: Server, vt: int, dots: char -> byte, cursorShape: byte,
                 coreActive: bool, driverRunning: bool, resumeOk: bool): (r: Flushed)
    requires Valid(s)
    ensures s.suspendHolder.Some? ==> r == Flushed(s, Untouched)
    ensures s.suspendHolder.None? ==> r.s == SetCurrentRootTty(s, vt)
    ensures r.result.ShowClient? ==>
      && !s.offline && WhoFillsTty(r.s) == Some(r.result.c)
      && var w := r.s.conns[r.result.c].window;
         w.Some? && Fits(w.value, s.displaySize)
         && r.result.cells == GetDots(w.value, s.displaySize, dots, cursorShape)
         && r.result.cursor == w.value.cursor - 1
    ensures r.result.ShowClient? <==>
      s.suspendHolder.None? && !s.offline && ShowsOnPath(r.s) && (driverRunning || resumeOk)
    ensures r.result == ResumeFailed <==>
      s.suspendHolder.None? && !s.offline && ShowsOnPath(r.s) && !driverRunning && !resumeOk
    ensures r.result.RestoreCoreAndSuspend? <==>
      s.suspendHolder.None? && (s.offline || !ShowsOnPath(r.s)) && !coreActive && driverRunning
    ensures r.result == Idle <==>
      s.suspendHolder.None? && (s.offline || !ShowsOnPath(r.s)) && (coreActive || !driverRunning)
  {
    if s.suspendHolder.Some? then Flushed(s, Untouched)
    else
      var s' := SetCurrentRootTty(s, vt);
      var filler := WhoFillsTty(s');
      if !s.offline && filler.Some? then
        if !driverRunning && !resumeOk then Flushed(s', ResumeFailed)
        else
          var c := filler.value;
          assert ConnOk(s', c);
          var w := s'.conns[c].window.value;
          Flushed(s', ShowClient(c, GetDots(w, s.displaySize, dots, cursorShape), w.cursor - 1))
      else if !coreActive && driverRunning then Flushed(s', RestoreCoreAndSuspend)
      else Flushed(s', Idle)
  }

  /** The client that flushes shows, cell by cell, what its window holds: the
      cursor cell carries the cursor shape, and with the masks a window starts
      with every other cell shows exactly its character's dots. */
  lemma FlushShowsWindow(s: Server, vt: int, dots: char -> byte, cursorShape: byte,
                         coreActive: bool, driverRunning: bool, resumeOk: bool, i: nat)
    requires Valid(s)
    requires Flush(s, vt, dots, cursorShape, coreActive, driverRunning, resumeOk).result.ShowClient?
    ensures var r := Flush(s, vt, dots, cursorShape, coreActive, driverRunning, resumeOk);
      var w := r.s.conns[r.result.c].window.value;
      && |r.result.cells| == s.displaySize
      && (i < s.displaySize && i + 1 != w.cursor && w.andMask[i] == 0xFF && w.orMask[i] == 0 ==>
            r.result.cells[i] == dots(w.text[i]))
      && (w.cursor != 0 ==> r.result.cells[w.cursor - 1] & cursorShape == cursorShape)
  {
    var r := Flush(s, vt, dots, cursorShape, coreActive, driverRunning, resumeOk);
    var w := r.s.conns[r.result.c].window.value;
    DotsShowWindow(w, s.displaySize, dots, cursorShape, i);
  }

  /** The same cell by cell about getDots alone. */
  lemma DotsShowWindow(w: Window, size: nat, dots: char -> byte, cursorShape: byte, i: nat)
    requires Fits(w, size)
    ensures var cells := GetDots(w, size, dots, cursorShape);
      && (i < size && i + 1 != w.cursor && w.andMask[i] == 0xFF && w.orMask[i] == 0 ==>
            cells[i] == dots(w.text[i]))
      && (w.cursor != 0 ==> cells[w.cursor - 1] & cursorShape == cursorShape)
  {
    if i < size && i + 1 != w.cursor && w.andMask[i] == 0xFF && w.orMask[i] == 0 {
      var d := dots(w.text[i]);
      assert (d & 0xFF) | 0 == d;
    }
    if w.cursor != 0 {
      var x := CellDots(w, w.cursor - 1, dots);
      assert (x | cursorShape) & cursorShape == cursorShape;
    }
  }

  // ---------------------------------------------------------------------------
  // Who gets a key
  // ---------------------------------------------------------------------------

  /** A connection in mode `how` whose accepted keys include `code`. */
  function Wants(s: Server, code: KeyCode, how: KeyMode): ConnId -> bool {
    c => c in s.conns && s.conns[c].how == how && Accepts(s.conns[c].keys, code)
  }

  /** whoGetsKey on the root: the deepest tty of the focus path that has a
      connection wanting the key, and there the first such connection. */
  function WhoGetsKey(s: Server, code: KeyCode, how: KeyMode): (r: Option<ConnId>)
    ensures DeepestPick(FocusPath(s.ttys), Wants(s, code, how), r)
    ensures r.Some? ==> Wants(s, code, how)(r.value) && Attached(s, r.value)
  {
    RouteIsDeepestPick(s.ttys, Wants(s, code, how));
    RouteSound(s.ttys, Wants(s, code, how));
    Route(s.ttys, Wants(s, code, how))
  }

  /** broadcastKey: every connection of every tty, focused or not, that
      wants the key, in tree order. */
  function BroadcastKey(s: Server, code: KeyCode, how: KeyMode): (r: seq<ConnId>)
    ensures forall c :: c in r <==> Attached(s, c) && Wants(s, code, how)(c)
  {
    Broadcast(s.ttys, Wants(s, code, how))
  }

  /** The connection a key is routed to is also one a broadcast of that key
      reaches. */
  lemma RoutedIsBroadcast(s: Server, code: KeyCode, how: KeyMode)
    ensures WhoGetsKey(s, code, how).Some? ==> WhoGetsKey(s, code, how).value in BroadcastKey(s, code, how)
  {
  }

  /** A key packet written to a connection (writeKey). */
  datatype Sent = Sent(c: ConnId, code: KeyCode)

  /** One key packet with `code` to each connection of `cs`, in order. */
  function SendAll(cs: seq<ConnId>, code: KeyCode): (r: seq<Sent>)
    ensures |r| == |cs| && forall i :: 0 <= i < |cs| ==> r[i] == Sent(cs[i], code)
  {
    seq(|cs|, i requires 0 <= i < |cs| => Sent(cs[i], code))
  }

  /** The server comes back online: the clients that accept the no-op
      command in command mode get it. */
  function ComeOnline(s: Server): (r: Delivery)
    ensures !r.s.offline && r.s == s.(offline := false)
    ensures !s.offline ==> r.sent == []
    ensures s.offline ==> r.sent == SendAll(BroadcastKey(s, CmdNoop, Commands), CmdNoop)
    ensures forall i :: 0 <= i < |r.sent| ==> Attached(s, r.sent[i].c)
  {
    if s.offline then Delivery(s.(offline := false), SendAll(BroadcastKey(s, CmdNoop, Commands), CmdNoop), false)
    else Delivery(s, [], false)
  }

  /** What handling a key or a command leaves behind: the server, the key
      packets written, and whether a client consumed the key (the C
      functions' EOF). */
  datatype Delivery = Delivery(s: Server, sent: seq<Sent>, consumed: bool)

  /** api__handleKeyEvent: a key of the display, packed as a client key code,
      goes to the client in key-code mode that the focus selects. */
  function HandleKeyEvent(s: Server, code: KeyCode): (r: Delivery)
    ensures !r.s.offline && r.s == s.(offline := false)
    ensures r.consumed <==> WhoGetsKey(s, code, KeyCodes).Some?
    ensures r.sent == ComeOnline(s).sent +
      (if r.consumed then [Sent(WhoGetsKey(s, code, KeyCodes).value, code)] else [])
  {
    var w := ComeOnline(s);
    assert WhoGetsKey(w.s, code, KeyCodes) == WhoGetsKey(s, code, KeyCodes) by {
      assert Wants(w.s, code, KeyCodes) == Wants(s, code, KeyCodes);
    }
    match WhoGetsKey(w.s, code, KeyCodes)
    case Some(c) => Delivery(w.s, w.sent + [Sent(c, code)], true)
    case None => Delivery(w.s, w.sent, false)
  }

  /** The command value of the core that means "no command" (EOF). */
  const Eof: int := -1
  /** The core's OFFLINE command; the value stands in for BRL_CMD_OFFLINE of
      the core's command header, which is not part of this model. */
  const BrlCmdOffline: int := 0x4B

  /** The result of api__handleCommand: the command the core should still
      handle itself, or Eof when a client consumed it. */
  datatype CommandResult = CommandResult(d: Delivery, command: int)

  /** api__handleCommand.  OFFLINE sets the server offline, telling the
      command-mode clients once; any other command brings it back online.  A
      command goes to the command-mode client the focus selects; after the
      autorepeat engine (`repeat`) has had its say the client gets the
      resulting code only if it still accepts it.  `toClient` is
      cmdBrlttyToBrlapi. */
  function HandleCommand(s: Server, command: int, toClient: int -> KeyCode, repeat: int -> int): (r: CommandResult)
    ensures r.d.s.offline <==> command == BrlCmdOffline
    ensures r.d.s == s.(offline := command == BrlCmdOffline)
    ensures command == BrlCmdOffline ==>
      r.command == BrlCmdOffline
      && r.d.sent == (if s.offline then [] else SendAll(BroadcastKey(s, CmdOffline, Commands), CmdOffline))
    ensures command != BrlCmdOffline ==>
      && (r.command == Eof <==> command == Eof || WhoGetsKey(s, toClient(command), Commands).Some?)
      && (r.command != Eof ==> r.command == command)
      && ComeOnline(s).sent <= r.d.sent
      && |r.d.sent| <= |ComeOnline(s).sent| + 1
    ensures forall i :: 0 <= i < |r.d.sent| ==> Attached(s, r.d.sent[i].c)
  {
    if command == BrlCmdOffline then
      if !s.offline then
        CommandResult(Delivery(s.(offline := true), SendAll(BroadcastKey(s, CmdOffline, Commands), CmdOffline), false),
                      BrlCmdOffline)
      else CommandResult(Delivery(s, [], false), BrlCmdOffline)
    else
      var w := ComeOnline(s);
      if command == Eof then CommandResult(w, command)
      else
        var code := toClient(command);
        assert WhoGetsKey(w.s, code, Commands) == WhoGetsKey(s, code, Commands) by {
          assert Wants(w.s, code, Commands) == Wants(s, code, Commands);
        }
        match WhoGetsKey(w.s, code, Commands)
        case None => CommandResult(w, command)
        case Some(c) =>
          var code' := toClient(repeat(command));
          var pass := Accepts(s.conns[c].keys, code');
          CommandResult(Delivery(w.s, w.sent + (if pass then [Sent(c, code')] else []), true), Eof)
  }

  /** Going offline and coming back: the command-mode clients that accept
      OFFLINE are told once, a second OFFLINE is silent, and the next
      command tells those that accept the no-op that the server is back. */
  lemma OfflineRoundTrip(s: Server, command: int, toClient: int -> KeyCode, repeat: int -> int)
    requires !s.offline && command != BrlCmdOffline
    ensures var r1 := HandleCommand(s, BrlCmdOffline, toClient, repeat);
      var r2 := HandleCommand(r1.d.s, BrlCmdOffline, toClient, repeat);
      var r3 := HandleCommand(r2.d.s, command, toClient, repeat);
      && r1.d.sent == SendAll(BroadcastKey(s, CmdOffline, Commands), CmdOffline)
      && r2.d.sent == [] && r2.d.s == r1.d.s
      && r3.d.s == s
      && SendAll(BroadcastKey(s, CmdNoop, Commands), CmdNoop) <= r3.d.sent
  {
    var r1 := HandleCommand(s, BrlCmdOffline, toClient, repeat);
    var s1 := r1.d.s;
    assert s1 == s.(offline := true);
    assert BroadcastKey(s1, CmdNoop, Commands) == BroadcastKey(s, CmdNoop, Commands) by {
      assert Wants(s1, CmdNoop, Commands) == Wants(s, CmdNoop, Commands);
    }
  }

  /** The client a command is routed to is the deepest on the focus path
      with a command-mode connection accepting it; a client away from the
      focus path never gets it. */
  lemma CommandGoesToFocus(s: Server, command: int, toClient: int -> KeyCode, repeat: int -> int, r: CommandResult)
    requires command != BrlCmdOffline && command != Eof && r == HandleCommand(s, command, toClient, repeat)
    ensures forall i :: |ComeOnline(s).sent| <= i < |r.d.sent| ==>
      && r.d.sent[i].c == WhoGetsKey(s, toClient(command), Commands).value
      && OnFocusPath(s, r.d.sent[i].c)
  {
    var n := |ComeOnline(s).sent|;
    var who := WhoGetsKey(s, toClient(command), Commands);
    if |r.d.sent| > n {
      ExtraSentIsRouted(s, command, toClient, repeat, r);
      RoutedOnFocusPath(s, toClient(command));
      assert r.d.sent[n].c == who.value;
    }
  }

  /** The one key packet a command adds after the online notices goes to the
      connection the routing picks. */
  lemma ExtraSentIsRouted(s: Server, command: int, toClient: int -> KeyCode, repeat: int -> int, r: CommandResult)
    requires command != BrlCmdOffline && command != Eof && r == HandleCommand(s, command, toClient, repeat)
    requires |r.d.sent| > |ComeOnline(s).sent|
    ensures WhoGetsKey(s, toClient(command), Commands).Some?
    ensures r.d.sent[|ComeOnline(s).sent|].c == WhoGetsKey(s, toClient(command), Commands).value
  {
    var w := ComeOnline(s);
    var code := toClient(command);
    assert WhoGetsKey(w.s, code, Commands) == WhoGetsKey(s, code, Commands) by {
      assert Wants(w.s, code, Commands) == Wants(s, code, Commands);
    }
  }

  /** The connection the routing picks sits on the focus path. */
  lemma RoutedOnFocusPath(s: Server, code: KeyCode)
    requires WhoGetsKey(s, code, Commands).Some?
    ensures OnFocusPath(s, WhoGetsKey(s, code, Commands).value)
  {
    var who := WhoGetsKey(s, code, Commands);
    var k :| 0 <= k < |FocusPath(s.ttys)| && FirstConn(FocusPath(s.ttys)[k].ring, Wants(s, code, Commands)) == who;
    assert who.value in FocusPath(s.ttys)[k].ring;
  }

  /** A connection is attached to one of the ttys on the focus path. */
  predicate OnFocusPath(s: Server, c: ConnId) {
    exists k :: 0 <= k < |FocusPath(s.ttys)| && c in FocusPath(s.ttys)[k].ring
  }

}
