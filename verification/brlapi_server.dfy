/** The state of the BrlAPI server: its connections, the tty tree they attach
    to, the ring of connections not in tty mode, and the two global holders
    of the braille driver (the connection in raw mode and the one that
    suspended the driver).

    Each handler of the server is modelled as one atomic step on this state,
    which is what the server's mutexes make of it.  A connection's tty is not
    stored: it is the tty whose ring holds the connection (`Locate`). */
module BrlapiServer {
  import opened Common
  import opened BrlapiTty
  import opened BrlapiKeys
  import opened BrlapiWindow

  /** How many connections may be unauthorized at once before new ones are
      refused (UNAUTH_MAX). */
  const UnauthMax: nat := 5
  /** Seconds an unauthorized connection may stay silent (UNAUTH_DELAY). */
  const UnauthDelay: int := 30

  /** The C `auth` field: -1 until the version packet, 0 until the credentials,
      1 once authorized. */
  datatype Auth = AwaitingVersion | AwaitingCredentials | Authorized

  /** Whether the connection's window holds something to show. */
  datatype BufState = ToDisplay | Empty

  /** One client connection.  `window` is None while its buffers are freed;
      `keys` is its accepted-key list. */
  datatype Connection = Connection(
    auth: Auth,
    raw: bool,
    suspend: bool,
    how: KeyMode,
    bufState: BufState,
    window: Option<Window>,
    keys: KeyRanges,
    upTime: int)

  /** A connection as createConnection makes it. */
  function NewConnection(now: int): Connection {
    Connection(AwaitingVersion, false, false, Commands, Empty, None, [], now)
  }

  /** What the server knows of the braille driver: its name (a C string, so
      without NUL), and whether it can pass key codes, raw packets and reset. */
  datatype Driver = Driver(name: seq<byte>, keyCapable: bool, rawCapable: bool, hasReset: bool)

  /** The server.  `ttys` is the root of the tty tree; `notty` the ring of
      connections not in tty mode, newest first; `unauth` the
      unauthConnections counter; `unauthLog` the count of refused
      connections; `nextId` the next connection identity to hand out. */
  datatype Server = Server(
    ttys: Tty,
    notty: seq<ConnId>,
    conns: map<ConnId, Connection>,
    rawHolder: Option<ConnId>,
    suspendHolder: Option<ConnId>,
    unauth: int,
    unauthLog: nat,
    offline: bool,
    columns: nat,
    rows: nat,
    displaySize: nat,
    driver: Driver,
    nextId: ConnId)

  /** The server as it starts: no connection, an empty tree. */
  function Start(columns: nat, rows: nat, driver: Driver): Server {
    Server(NewTty(0), [], map[], None, None, 0, 0, false, columns, rows, columns * rows, driver, 0)
  }

  // ---------------------------------------------------------------------------
  // The invariant
  // ---------------------------------------------------------------------------

  /** The connections not yet authorized. */
  function Unauthorized(conns: map<ConnId, Connection>): set<ConnId> {
    set c | c in conns && conns[c].auth != Authorized
  }

  /** Every connection sits in exactly one ring, once: in the tree or in
      `notty`; and the rings hold nothing else. */
  predicate RingsValid(s: Server) {
    multiset(AllConns(s.ttys)) + multiset(s.notty) == multiset(s.conns.Keys)
  }

  /** A connection's raw (suspend) flag is set exactly when it is the raw
      (suspend) holder, and at most one of the two holders is set. */
  predicate HoldersValid(s: Server) {
    && (s.rawHolder.Some? ==> s.rawHolder.value in s.conns)
    && (s.suspendHolder.Some? ==> s.suspendHolder.value in s.conns)
    && (forall c :: c in s.conns ==> (s.conns[c].raw <==> s.rawHolder == Some(c)))
    && (forall c :: c in s.conns ==> (s.conns[c].suspend <==> s.suspendHolder == Some(c)))
    && !(s.rawHolder.Some? && s.suspendHolder.Some?)
  }

  /** What holds of one connection: an unauthorized one does nothing but
      wait in `notty`; one in tty mode has a window of the display's size;
      one outside tty mode has neither window nor accepted keys. */
  predicate ConnOk(s: Server, c: ConnId)
    requires c in s.conns
  {
    var conn := s.conns[c];
    && c < s.nextId
    && (conn.auth != Authorized ==> !conn.raw && !conn.suspend && c !in AllConns(s.ttys))
    && (c in AllConns(s.ttys) ==> conn.window.Some? && Fits(conn.window.value, s.displaySize))
    && (c !in AllConns(s.ttys) ==> conn.window.None? && conn.keys == [])
  }

  predicate Valid(s: Server) {
    && RingsValid(s)
    && HoldersValid(s)
    && (forall c :: c in s.conns ==> ConnOk(s, c))
    && s.unauth == |Unauthorized(s.conns)|
    && s.displaySize == s.columns * s.rows
    && 0 !in s.driver.name
  }

  /** The server starts in a valid state. */
  lemma StartValid(columns: nat, rows: nat, driver: Driver)
    requires 0 !in driver.name
    ensures Valid(Start(columns, rows, driver))
  {
    var s := Start(columns, rows, driver);
    assert AllConns(s.ttys) == [];
    assert Unauthorized(s.conns) == {};
  }

  /** In a valid state a connection is in exactly one ring: the tree or `notty`. */
  lemma Placement(s: Server, c: ConnId)
    requires RingsValid(s)
    ensures c in s.conns ==> multiset(AllConns(s.ttys))[c] + multiset(s.notty)[c] == 1
    ensures c !in s.conns ==> c !in AllConns(s.ttys) && c !in s.notty
    ensures c in s.conns <==> c in AllConns(s.ttys) || c in s.notty
  {
    assert multiset(AllConns(s.ttys))[c] + multiset(s.notty)[c] == multiset(s.conns.Keys)[c];
  }

  // ---------------------------------------------------------------------------
  // Moving connections between rings
  // ---------------------------------------------------------------------------

  lemma MoveIntoTree(t: multiset<ConnId>, n: multiset<ConnId>, k: multiset<ConnId>, c: ConnId)
    requires t + n == k && n[c] == 1
    ensures (t + multiset{c}) + n[c := 0] == k
  {
    forall x ensures ((t + multiset{c}) + n[c := 0])[x] == k[x] {
      assert (t + n)[x] == t[x] + n[x];
    }
  }

  lemma MoveIntoNotty(t: multiset<ConnId>, n: multiset<ConnId>, k: multiset<ConnId>, c: ConnId)
    requires t + n == k && t[c] == 1
    ensures t[c := 0] + (multiset{c} + n) == k
  {
    forall x ensures (t[c := 0] + (multiset{c} + n))[x] == k[x] {
      assert (t + n)[x] == t[x] + n[x];
    }
  }

  lemma DropEverywhere(t: multiset<ConnId>, n: multiset<ConnId>, k: multiset<ConnId>, c: ConnId)
    requires t + n == k
    ensures t[c := 0] + n[c := 0] == k[c := 0]
  {
    var l, r := t[c := 0] + n[c := 0], k[c := 0];
    forall x ensures l[x] == r[x] {
      assert (t + n)[x] == t[x] + n[x];
    }
  }

  lemma AddToNotty(t: multiset<ConnId>, n: multiset<ConnId>, k: multiset<ConnId>, c: ConnId)
    requires t + n == k
    ensures t + (multiset{c} + n) == k + multiset{c}
  {
    forall x ensures (t + (multiset{c} + n))[x] == (k + multiset{c})[x] {
      assert (t + n)[x] == t[x] + n[x];
    }
  }

  lemma KeysAdd(conns: map<ConnId, Connection>, c: ConnId, conn: Connection)
    requires c !in conns
    ensures multiset(conns[c := conn].Keys) == multiset(conns.Keys) + multiset{c}
  {
    assert conns[c := conn].Keys == conns.Keys + {c};
  }

  lemma KeysRemove(conns: map<ConnId, Connection>, c: ConnId)
    ensures multiset((conns - {c}).Keys) == multiset(conns.Keys)[c := 0]
  {
    assert (conns - {c}).Keys == conns.Keys - {c};
  }

  // ---------------------------------------------------------------------------
  // The unauthorized count
  // ---------------------------------------------------------------------------

  /** Replacing a connection without changing its authorization keeps the set. */
  lemma UnauthorizedSameAuth(conns: map<ConnId, Connection>, c: ConnId, conn: Connection)
    requires c in conns && conns[c].auth == conn.auth
    ensures Unauthorized(conns[c := conn]) == Unauthorized(conns)
  {
  }

  /** Replacing a connection that stays unauthorized keeps the set. */
  lemma UnauthorizedStillWaiting(conns: map<ConnId, Connection>, c: ConnId, conn: Connection)
    requires c in conns && conns[c].auth != Authorized && conn.auth != Authorized
    ensures Unauthorized(conns[c := conn]) == Unauthorized(conns)
  {
  }

  /** Authorizing a connection takes it out of the set. */
  lemma UnauthorizedAuthorize(conns: map<ConnId, Connection>, c: ConnId, conn: Connection)
    requires c in conns && conns[c].auth != Authorized && conn.auth == Authorized
    ensures Unauthorized(conns[c := conn]) == Unauthorized(conns) - {c}
    ensures |Unauthorized(conns[c := conn])| == |Unauthorized(conns)| - 1
  {
    assert c in Unauthorized(conns);
  }

  /** A fresh connection, unauthorized, joins the set. */
  lemma UnauthorizedAdd(conns: map<ConnId, Connection>, c: ConnId, conn: Connection)
    requires c !in conns && conn.auth != Authorized
    ensures Unauthorized(conns[c := conn]) == Unauthorized(conns) + {c}
    ensures |Unauthorized(conns[c := conn])| == |Unauthorized(conns)| + 1
  {
    assert c !in Unauthorized(conns);
  }

  /** Removing a connection leaves the set, shrunk when it was unauthorized. */
  lemma UnauthorizedRemove(conns: map<ConnId, Connection>, c: ConnId)
    requires c in conns
    ensures Unauthorized(conns - {c}) == Unauthorized(conns) - {c}
    ensures |Unauthorized(conns - {c})| == |Unauthorized(conns)| - (if conns[c].auth != Authorized then 1 else 0)
  {
    if conns[c].auth != Authorized {
      assert c in Unauthorized(conns);
    } else {
      assert Unauthorized(conns - {c}) == Unauthorized(conns);
    }
  }

  // ---------------------------------------------------------------------------
  // Frames: what other connections see of a step
  // ---------------------------------------------------------------------------

  /** `s'` differs from `s` at most in connection `c` and in where `c` is
      attached: every other connection keeps its record and its ring. */
  ghost predicate OthersKept(s: Server, s': Server, c: ConnId) {
    && s'.nextId == s.nextId && s'.displaySize == s.displaySize
    && (forall d :: d in s.conns && d != c ==> d in s'.conns && s'.conns[d] == s.conns[d])
    && (forall d :: d != c ==> (d in AllConns(s'.ttys) <==> d in AllConns(s.ttys)))
  }

  lemma OthersOk(s: Server, s': Server, c: ConnId)
    requires forall d :: d in s.conns ==> ConnOk(s, d)
    requires OthersKept(s, s', c)
    ensures forall d :: d in s.conns && d != c ==> ConnOk(s', d)
  {
    forall d | d in s.conns && d != c ensures ConnOk(s', d) {
      assert ConnOk(s, d);
    }
  }

  /** The membership of every connection but `c` in a tree whose multiset
      changed only at `c`. */
  lemma SameMembersBut(a: seq<ConnId>, b: seq<ConnId>, c: ConnId)
    requires multiset(b)[c := 0] == multiset(a)[c := 0]
    ensures forall d :: d != c ==> (d in b <==> d in a)
  {
    forall d | d != c ensures d in b <==> d in a {
      assert multiset(b)[c := 0][d] == multiset(b)[d];
      assert multiset(a)[c := 0][d] == multiset(a)[d];
    }
  }
}
