/** The life of a BrlAPI connection (Programs/brlapi_server.c): admission
    under the quota of unauthorized connections, the version and credential
    handshake, the dispatch of the requests of an authorized connection,
    the release of what a vanishing client held, the eviction of silent
    unauthorized connections, and the reclamation of unused ttys. */
module BrlapiSession {
  import opened Common
  import opened BrlapiProtocol
  import opened BrlapiTty
  import opened BrlapiKeys
  import opened BrlapiWindow
  import opened BrlapiServer
  import opened BrlapiFramer
  import opened BrlapiHandlers
  import opened BrlapiDevice

  /** The protocol version the server speaks (BRLAPI_PROTOCOL_VERSION); the
      value stands in for the one of the protocol header, which is not part
      of this model. */
  const ProtocolVersion: nat := 8
  /** Authorization methods announced in the AUTH packet (BRLAPI_AUTH_NONE,
      BRLAPI_AUTH_KEY), as the protocol header's letters. */
  const AuthNone: nat := 'N' as nat
  const AuthKey: nat := 'K' as nat

  /** A handler step that may end the connection: `remove` is processRequest's
      return value. */
  datatype Step = Step(s: Server, reply: Reply, action: DriverAction, remove: bool)

  // ---------------------------------------------------------------------------
  // Admission (the server loop) and removal (removeFreeConnection)
  // ---------------------------------------------------------------------------

  /** A new socket: turned away with a CONNREFUSED error, and counted, while
      the quota of unauthorized connections is full; otherwise a fresh
      connection at the front of `notty`, greeted (handleNewConnection) with a
      VERSION packet carrying the server's protocol version. */
  datatype Admission = Admitted(s: Server, c: ConnId, reply: Reply) | TurnedAway(s: Server, reply: Reply)

  function Admit(s: Server, now: int): (r: Admission)
    ensures r.TurnedAway? <==> s.unauth >= UnauthMax
    ensures r.TurnedAway? ==> r.s == s.(unauthLog := s.unauthLog + 1) && r.reply == Error(ConnectionRefused)
    ensures r.Admitted? ==>
      && r.c == s.nextId && r.s.notty == [r.c] + s.notty && r.s.ttys == s.ttys
      && r.s.conns == s.conns[r.c := NewConnection(now)]
      && r.s.unauth == s.unauth + 1 && r.s.unauthLog == s.unauthLog
    ensures r.Admitted? ==> r.reply.Answer? && |r.reply.data| == 4
  {
    if s.unauth >= UnauthMax then TurnedAway(s.(unauthLog := s.unauthLog + 1), Error(ConnectionRefused))
    else
      var c := s.nextId;
      Admitted(s.(notty := [c] + s.notty, conns := s.conns[c := NewConnection(now)],
                  unauth := s.unauth + 1, nextId := c + 1), c, Answer(WordBytes(ProtocolVersion)))
  }

  /** The greeting names the version the handshake then expects: a client
      that sends it back passes the version check. */
  lemma GreetingMatchesHandshake(s: Server, now: int)
    requires Admit(s, now).Admitted?
    ensures VersionOk(Admit(s, now).reply.data)
  {
    WordRoundTrip(ProtocolVersion);
    assert WordBytes(ProtocolVersion)[..4] == WordBytes(ProtocolVersion);
  }

  /** Admission keeps the server valid and never lets the count of
      unauthorized connections past the quota. */
  lemma AdmitValid(s: Server, now: int)
    requires Valid(s)
    ensures Valid(Admit(s, now).s)
    ensures s.unauth <= UnauthMax ==> Admit(s, now).s.unauth <= UnauthMax
  {
    var r := Admit(s, now);
    if r.Admitted? {
      var c := r.c;
      var s' := r.s;
      forall d | d in s.conns ensures d < c { assert ConnOk(s, d); }
      assert RingsValid(s') by {
        KeysAdd(s.conns, c, NewConnection(now));
        AddToNotty(multiset(AllConns(s.ttys)), multiset(s.notty), multiset(s.conns.Keys), c);
      }
      assert s'.unauth == |Unauthorized(s'.conns)| by {
        UnauthorizedAdd(s.conns, c, NewConnection(now));
      }
      assert HoldersValid(s');
      assert forall d :: d in s'.conns ==> ConnOk(s', d) by {
        Placement(s, c);
        forall d | d in s'.conns ensures ConnOk(s', d) {
          if d != c { assert ConnOk(s, d); }
        }
      }
    }
  }

  /** removeFreeConnection: unlinks the connection from its ring and frees
      it, uncounting it when it was not authorized. */
  function Discard(s: Server, c: ConnId): (s': Server)
    requires c in s.conns
    ensures c !in s'.conns && s'.conns == s.conns - {c}
    ensures s'.unauth == s.unauth - (if s.conns[c].auth != Authorized then 1 else 0)
    ensures multiset(AllConns(s'.ttys)) == multiset(AllConns(s.ttys))[c := 0]
    ensures multiset(s'.notty) == multiset(s.notty)[c := 0]
  {
    s.(ttys := Detach(s.ttys, c), notty := Remove(s.notty, c), conns := s.conns - {c},
       unauth := if s.conns[c].auth != Authorized then s.unauth - 1 else s.unauth)
  }

  /** Removing a connection that holds neither the raw mode nor the
      suspension keeps the server valid. */
  lemma DiscardValid(s: Server, c: ConnId)
    requires Valid(s) && c in s.conns && !s.conns[c].raw && !s.conns[c].suspend
    ensures Valid(Discard(s, c))
  {
    var s' := Discard(s, c);
    KeysRemove(s.conns, c);
    DropEverywhere(multiset(AllConns(s.ttys)), multiset(s.notty), multiset(s.conns.Keys), c);
    UnauthorizedRemove(s.conns, c);
    SameMembersBut(AllConns(s.ttys), AllConns(s'.ttys), c);
    forall d | d in s'.conns ensures ConnOk(s', d) {
      assert ConnOk(s, d);
    }
  }


  // ---------------------------------------------------------------------------
  // The handshake (handleUnauthorizedConnection)
  // ---------------------------------------------------------------------------

  /** What the handshake learns from outside the model: whether the peer is
      authorized by its credentials on the socket (authPerform), whether a
      key file is configured (an absolute `auth` path), and whether the
      credentials the client sends are right. */
  datatype AuthEnv = AuthEnv(peerAuthorized: bool, keyFile: bool, credentialsOk: bool)

  /** The VERSION packet names the server's protocol version. */
  predicate VersionOk(content: seq<byte>) {
    |content| >= 4 && BigEndian(content[..4]) == ProtocolVersion
  }

  /** The handshake of a connection not yet authorized.  A first packet
      other than a VERSION of the right version, or a second packet other
      than AUTH, ends the connection.  A peer authorized by its socket is
      authorized at once; otherwise the connection waits for credentials,
      and wrong credentials are refused but keep the connection. */
  function HandleUnauthorized(s: Server, c: ConnId, ptype: PacketType, content: seq<byte>, env: AuthEnv): (r: Step)
    requires c in s.conns && s.conns[c].auth != Authorized
    ensures c in r.s.conns && r.action == NoAction && r.s.ttys == s.ttys && r.s.notty == s.notty
    ensures r.remove <==>
      if s.conns[c].auth == AwaitingVersion then ptype != VersionPacket || !VersionOk(content)
      else ptype != AuthPacket
    ensures r.remove ==> r.s == s && r.reply == Error(ProtocolVersionError)
    ensures !r.remove ==> r.s.conns == s.conns[c := r.s.conns[c]]
    ensures r.s.conns[c].auth == Authorized <==>
      !r.remove && (if s.conns[c].auth == AwaitingVersion then env.peerAuthorized else env.credentialsOk)
    ensures r.s.unauth == s.unauth - (if r.s.conns[c].auth == Authorized then 1 else 0)
  {
    var conn := s.conns[c];
    if conn.auth == AwaitingVersion then
      if ptype != VersionPacket || !VersionOk(content) then Step(s, Error(ProtocolVersionError), NoAction, true)
      else if env.peerAuthorized then
        Step(s.(conns := s.conns[c := conn.(auth := Authorized)], unauth := s.unauth - 1),
             Answer(WordBytes(AuthNone)), NoAction, false)
      else
        Step(s.(conns := s.conns[c := conn.(auth := AwaitingCredentials)]),
             Answer(if env.keyFile then WordBytes(AuthKey) else []), NoAction, false)
    else if ptype != AuthPacket then Step(s, Error(ProtocolVersionError), NoAction, true)
    else if !env.credentialsOk then Step(s, Error(AuthenticationFailed), NoAction, false)
    else Step(s.(conns := s.conns[c := conn.(auth := Authorized)], unauth := s.unauth - 1), Ack, NoAction, false)
  }

  /** The handshake keeps the server valid: the unauthorized count follows
      the connections that are not yet authorized. */
  lemma HandleUnauthorizedValid(s: Server, c: ConnId, ptype: PacketType, content: seq<byte>, env: AuthEnv)
    requires Valid(s) && c in s.conns && s.conns[c].auth != Authorized
    ensures Valid(HandleUnauthorized(s, c, ptype, content, env).s)
  {
    var r := HandleUnauthorized(s, c, ptype, content, env);
    if !r.remove {
      var conn' := s.conns[c].(auth := r.s.conns[c].auth);
      assert r.s == s.(conns := s.conns[c := conn'], unauth := s.unauth - (if conn'.auth == Authorized then 1 else 0));
      AuthStepValid(s, c, conn'.auth);
    }
  }

  /** Moving a waiting connection to another authorization state, and
      counting it off when it becomes authorized, keeps the server valid. */
  lemma AuthStepValid(s: Server, c: ConnId, auth: Auth)
    requires Valid(s) && c in s.conns && s.conns[c].auth != Authorized
    ensures Valid(s.(conns := s.conns[c := s.conns[c].(auth := auth)],
                     unauth := s.unauth - (if auth == Authorized then 1 else 0)))
  {
    var conn' := s.conns[c].(auth := auth);
    var s' := s.(conns := s.conns[c := conn'], unauth := s.unauth - (if auth == Authorized then 1 else 0));
    assert ConnOk(s, c);
    if auth == Authorized {
      UnauthorizedAuthorize(s.conns, c, conn');
    } else {
      UnauthorizedStillWaiting(s.conns, c, conn');
    }
    assert s'.conns.Keys == s.conns.Keys;
    assert RingsValid(s');
    assert HoldersValid(s') by {
      forall d | d in s'.conns ensures s'.conns[d].raw == s.conns[d].raw && s'.conns[d].suspend == s.conns[d].suspend {
      }
    }
    AuthStepConnsOk(s, c, auth);
  }

  /** The connection whose authorization moves still satisfies ConnOk, and
      so do the others. */
  lemma AuthStepConnsOk(s: Server, c: ConnId, auth: Auth)
    requires Valid(s) && c in s.conns && s.conns[c].auth != Authorized
    ensures forall d :: d in s.conns ==> ConnOk(s.(conns := s.conns[c := s.conns[c].(auth := auth)],
                                                    unauth := s.unauth - (if auth == Authorized then 1 else 0)), d)
  {
    var s' := s.(conns := s.conns[c := s.conns[c].(auth := auth)], unauth := s.unauth - (if auth == Authorized then 1 else 0));
    assert ConnOk(s, c);
    forall d | d in s'.conns ensures ConnOk(s', d) {
      assert ConnOk(s, d);
    }
  }

  /** A silent connection that is still not authorized is dropped once more
      than UnauthDelay seconds have passed since it arrived. */
  predicate Expired(conn: Connection, now: int) {
    conn.auth != Authorized && now - conn.upTime > UnauthDelay
  }

  /** handleTtyFds for a connection with nothing to read. */
  function Evict(s: Server, c: ConnId, now: int): (s': Server)
    requires c in s.conns
    ensures c in s'.conns <==> !Expired(s.conns[c], now)
    ensures !Expired(s.conns[c], now) ==> s' == s
  {
    if Expired(s.conns[c], now) then Discard(s, c) else s
  }

  lemma EvictValid(s: Server, c: ConnId, now: int)
    requires Valid(s) && c in s.conns
    ensures Valid(Evict(s, c, now))
  {
    if Expired(s.conns[c], now) {
      assert ConnOk(s, c);
      DiscardValid(s, c);
    }
  }

  // ---------------------------------------------------------------------------
  // Dispatch (processRequest)
  // ---------------------------------------------------------------------------

  /** What the handlers take from outside the model: the key-range mask of
      the key tables, how text becomes characters (iconv and the core's
      charset), whether a stopped driver can be restarted, the stale bytes
      of the packet buffer beyond the packet, and the result of resetting
      the driver. */
  datatype Env = Env(mask: MaskLookup, text: TextSetup, driverReady: bool, stale: seq<byte>,
                     auth: AuthEnv, resetOk: bool)

  /** The handler table of an authorized connection; a type it does not
      name is answered with an UNKNOWN_INSTRUCTION exception. */
  function Dispatch(s: Server, c: ConnId, ptype: PacketType, content: seq<byte>, env: Env): (o: Outcome)
    requires Valid(s) && c in s.conns && |env.stale| >= 4 && BufferCovers(content, env.stale, s.displaySize)
    ensures ptype.VersionPacket? || ptype.AuthPacket? || ptype.OtherType? ==>
      o == Outcome(s, Exception(UnknownInstruction), NoAction)
  {
    assert ConnOk(s, c);
    match ptype
    case GetDriverName => HandleGetDriverName(s, c, content)
    case GetDisplaySize => HandleGetDisplaySize(s, c, content)
    case EnterTtyMode => HandleEnterTty(s, c, content, env.stale, env.mask)
    case SetFocus => HandleSetFocus(s, c, content, env.stale)
    case LeaveTtyMode => HandleLeaveTty(s, c)
    case IgnoreKeyRanges => HandleKeyRanges(s, c, false, content)
    case AcceptKeyRanges => HandleKeyRanges(s, c, true, content)
    case WritePacket => HandleWrite(s, c, content, env.stale, env.text)
    case EnterRawMode => HandleEnterRaw(s, c, content, env.driverReady)
    case LeaveRawMode => HandleLeaveRaw(s, c)
    case RawPacket => HandleRawPacket(s, c, content)
    case SuspendDriver => HandleSuspend(s, c, content)
    case ResumeDriver => HandleResume(s, c)
    case _ => Outcome(s, Exception(UnknownInstruction), NoAction)
  }

  /** Every handler of an authorized connection keeps the server valid. */
  lemma DispatchValid(s: Server, c: ConnId, ptype: PacketType, content: seq<byte>, env: Env)
    requires Valid(s) && c in s.conns && s.conns[c].auth == Authorized && |env.stale| >= 4
    requires BufferCovers(content, env.stale, s.displaySize) && MaskResolves(env.mask)
    ensures Valid(Dispatch(s, c, ptype, content, env).s)
  {
    if TtyRequest(ptype) {
      DispatchTtyValid(s, c, ptype, content, env);
    } else {
      DispatchDeviceValid(s, c, ptype, content, env);
    }
  }

  /** The requests about ttys and keys. */
  predicate TtyRequest(ptype: PacketType) {
    ptype.EnterTtyMode? || ptype.SetFocus? || ptype.LeaveTtyMode? || ptype.IgnoreKeyRanges? || ptype.AcceptKeyRanges?
  }

  lemma DispatchTtyValid(s: Server, c: ConnId, ptype: PacketType, content: seq<byte>, env: Env)
    requires Valid(s) && c in s.conns && s.conns[c].auth == Authorized && |env.stale| >= 4
    requires BufferCovers(content, env.stale, s.displaySize) && MaskResolves(env.mask) && TtyRequest(ptype)
    ensures Valid(Dispatch(s, c, ptype, content, env).s)
  {
    var o := Dispatch(s, c, ptype, content, env);
    match ptype
    case EnterTtyMode =>
      assert o == HandleEnterTty(s, c, content, env.stale, env.mask);
      HandleEnterTtyValid(s, c, content, env.stale, env.mask);
    case SetFocus =>
      assert o == HandleSetFocus(s, c, content, env.stale);
      HandleSetFocusValid(s, c, content, env.stale);
    case LeaveTtyMode =>
      assert o == HandleLeaveTty(s, c);
      if o.reply == Ack { DoLeaveTtyValid(s, c); }
    case IgnoreKeyRanges =>
      assert o == HandleKeyRanges(s, c, false, content);
      HandleKeyRangesEffect(s, c, false, content, 0);
    case AcceptKeyRanges =>
      assert o == HandleKeyRanges(s, c, true, content);
      HandleKeyRangesEffect(s, c, true, content, 0);
  }

  lemma DispatchDeviceValid(s: Server, c: ConnId, ptype: PacketType, content: seq<byte>, env: Env)
    requires Valid(s) && c in s.conns && s.conns[c].auth == Authorized && |env.stale| >= 4
    requires BufferCovers(content, env.stale, s.displaySize) && !TtyRequest(ptype)
    ensures Valid(Dispatch(s, c, ptype, content, env).s)
  {
    var o := Dispatch(s, c, ptype, content, env);
    match ptype
    case WritePacket =>
      assert o == HandleWrite(s, c, content, env.stale, env.text);
      HandleWriteValid(s, c, content, env.stale, env.text);
    case EnterRawMode =>
      assert o == HandleEnterRaw(s, c, content, env.driverReady);
      RawValid(s, c, content, env.driverReady);
    case LeaveRawMode =>
      assert o == HandleLeaveRaw(s, c);
      RawValid(s, c, content, env.driverReady);
    case SuspendDriver =>
      assert o == HandleSuspend(s, c, content);
      SuspendValid(s, c, content);
    case ResumeDriver =>
      assert o == HandleResume(s, c);
      SuspendValid(s, c, content);
    case GetDriverName =>
      assert o == HandleGetDriverName(s, c, content);
    case GetDisplaySize =>
      assert o == HandleGetDisplaySize(s, c, content);
    case RawPacket =>
      assert o == HandleRawPacket(s, c, content);
    case _ =>
  }

  /** What a read of the connection's socket gave: a whole packet, or the
      end of the connection (end of file or a read error). */
  datatype Arrival = Received(ptype: nat, content: seq<byte>) | Closed

  /** The connection gives up the raw mode it holds or, failing that, the
      suspension it holds; nothing else changes. */
  function DropHolder(s: Server, c: ConnId): (s1: Server)
    requires c in s.conns
    ensures s1.conns.Keys == s.conns.Keys && !s1.conns[c].raw
    ensures !s.conns[c].raw ==> !s1.conns[c].suspend
    ensures s1.conns[c] == s.conns[c].(raw := s1.conns[c].raw, suspend := s1.conns[c].suspend)
    ensures forall d :: d in s.conns && d != c ==> s1.conns[d] == s.conns[d]
    ensures s1.rawHolder == (if s.conns[c].raw then None else s.rawHolder)
    ensures s1.suspendHolder == (if !s.conns[c].raw && s.conns[c].suspend then None else s.suspendHolder)
    ensures s1 == s.(conns := s1.conns, rawHolder := s1.rawHolder, suspendHolder := s1.suspendHolder)
  {
    var conn := s.conns[c];
    if conn.raw then s.(conns := s.conns[c := conn.(raw := false)], rawHolder := None)
    else if conn.suspend then s.(conns := s.conns[c := conn.(suspend := false)], suspendHolder := None)
    else s
  }

  /** What processRequest does when the connection goes away: a raw-mode
      holder gives the driver back, which is reset, or restarted when it
      cannot be reset; a suspending holder gives it back and the driver is
      resumed if stopped and then, when it has a reset, reset (whose failure
      is only logged); a connection in tty mode leaves it. */
  function Release(s: Server, c: ConnId, resetOk: bool): (o: Outcome)
    requires c in s.conns
    ensures c in o.s.conns && !o.s.conns[c].raw && !Attached(o.s, c)
    ensures !s.conns[c].raw ==> !o.s.conns[c].suspend
    ensures o.action == RestartDriver <==> s.conns[c].raw && !(s.driver.hasReset && resetOk)
    ensures o.action == ResetDriver <==> s.conns[c].raw && s.driver.hasReset && resetOk
    ensures o.action == ResumeIfStopped <==> !s.conns[c].raw && s.conns[c].suspend && !s.driver.hasReset
    ensures o.action == ResumeThenReset <==> !s.conns[c].raw && s.conns[c].suspend && s.driver.hasReset
    ensures o.s.rawHolder == (if s.conns[c].raw then None else s.rawHolder)
    ensures o.s.suspendHolder == (if !s.conns[c].raw && s.conns[c].suspend then None else s.suspendHolder)
    ensures forall d :: d in s.conns && d != c ==> d in o.s.conns && o.s.conns[d] == s.conns[d]
  {
    var conn := s.conns[c];
    var s1 := DropHolder(s, c);
    var action := if conn.raw then (if s.driver.hasReset && resetOk then ResetDriver else RestartDriver)
                  else if conn.suspend then (if s.driver.hasReset then ResumeThenReset else ResumeIfStopped)
                  else NoAction;
    var s2 := if Attached(s1, c) then DoLeaveTty(s1, c) else s1;
    assert Attached(s1, c) ==> !Attached(s2, c) by {
      if Attached(s1, c) {
        assert multiset(AllConns(s2.ttys))[c] == 0;
      }
    }
    Outcome(s2, Silent, action)
  }

  lemma ReleaseValid(s: Server, c: ConnId, resetOk: bool)
    requires Valid(s) && c in s.conns
    ensures Valid(Release(s, c, resetOk).s)
  {
    var conn := s.conns[c];
    assert ConnOk(s, c);
    var s1 := DropHolder(s, c);
    if conn.raw || conn.suspend {
      HolderChangeValid(s, s1, c);
    }
    if Attached(s1, c) {
      DoLeaveTtyValid(s1, c);
    }
  }

  /** processRequest followed by the removal handleTtyFds performs when it
      returns 1.  A packet too large for the protocol is dropped. */
  function Serve(s: Server, c: ConnId, arrival: Arrival, env: Env): (r: Step)
    requires Valid(s) && c in s.conns && |env.stale| >= 4
    requires arrival.Received? ==> BufferCovers(arrival.content, env.stale, s.displaySize)
    ensures arrival.Closed? ==> r.remove && c !in r.s.conns
    ensures r.remove ==> c !in r.s.conns && r.s.rawHolder != Some(c) && r.s.suspendHolder != Some(c)
  {
    assert ConnOk(s, c);
    match arrival
    case Closed =>
      var o := Release(s, c, env.resetOk);
      Step(Discard(o.s, c), o.reply, o.action, true)
    case Received(ptype, content) =>
      if s.conns[c].auth != Authorized then
        var r := HandleUnauthorized(s, c, ClassifyType(ptype), content, env.auth);
        if r.remove then r.(s := Discard(r.s, c)) else r
      else if |content| > MaxPacketSize then Step(s, Silent, NoAction, false)
      else
        var o := Dispatch(s, c, ClassifyType(ptype), content, env);
        Step(o.s, o.reply, o.action, false)
  }

  /** Whatever arrives on a connection, the server stays valid. */
  lemma ServeValid(s: Server, c: ConnId, arrival: Arrival, env: Env)
    requires Valid(s) && c in s.conns && |env.stale| >= 4 && MaskResolves(env.mask)
    requires arrival.Received? ==> BufferCovers(arrival.content, env.stale, s.displaySize)
    ensures Valid(Serve(s, c, arrival, env).s)
  {
    assert ConnOk(s, c);
    match arrival
    case Closed =>
      var o := Release(s, c, env.resetOk);
      ReleaseValid(s, c, env.resetOk);
      DiscardValid(o.s, c);
    case Received(ptype, content) =>
      if s.conns[c].auth != Authorized {
        var r := HandleUnauthorized(s, c, ClassifyType(ptype), content, env.auth);
        HandleUnauthorizedValid(s, c, ClassifyType(ptype), content, env.auth);
        if r.remove {
          DiscardValid(r.s, c);
        }
      } else if |content| <= MaxPacketSize {
        DispatchValid(s, c, ClassifyType(ptype), content, env);
      }
  }

  /** After one reclamation pass (handleTtyFds on `ttys`), the server is
      still valid and every tty left below the root holds a connection. */
  lemma ReclaimValid(s: Server)
    requires Valid(s)
    ensures var s' := s.(ttys := Reclaim(s.ttys));
      Valid(s') && forall i :: 0 <= i < |s'.ttys.children| ==> Occupied(s'.ttys.children[i])
  {
    ReclaimSound(s.ttys);
    var s' := s.(ttys := Reclaim(s.ttys));
    forall d | d in s'.conns ensures ConnOk(s', d) {
      assert ConnOk(s, d);
    }
  }

}
