/** The tty hierarchy of the BrlAPI server (Programs/brlapi_server.c): a tree
    of ttys, each holding an ordered ring of client connections, and the
    routing of display ownership and key events that follows each tty's focus
    down the tree.

    The C code links ttys by pointers (father, first child, next sibling) and
    keeps a sentinel connection per ring.  Here a tty is an immutable tree
    node: its children in list order, its ring from the first connection after
    the sentinel to the last.  A connection's `tty` pointer is not stored: a
    connection is attached to the node whose ring holds it (`Locate`). */
module BrlapiTty {
  import opened Common

  /** Identity of a client connection. */
  type ConnId = nat

  /** A tty.  `number` is the 32-bit tty number as the client sent it (the
      unsigned view; the C field is an `int` holding the same bits), `focus`
      the C `int` focus, -1 meaning "no particular child". */
  datatype Tty = Tty(number: nat, focus: int, ring: seq<ConnId>, children: seq<Tty>)

  const NoFocus: int := -1

  /** A tty as `newTty` creates it: given number, focus -1, no connection, no child. */
  function NewTty(number: nat): (t: Tty)
    ensures t.number == number && t.focus == NoFocus && t.ring == [] && t.children == []
  {
    Tty(number, NoFocus, [], [])
  }

  /** Every connection held in the rings of `t`'s subtree, node before children,
      each ring in ring order, children in list order. */
  function AllConns(t: Tty): seq<ConnId>
    decreases t
  {
    t.ring + AllConnsList(t.children)
  }

  function AllConnsList(ts: seq<Tty>): seq<ConnId>
    decreases ts
  {
    if |ts| == 0 then [] else AllConns(ts[0]) + AllConnsList(ts[1..])
  }

  lemma {:induction false} AllConnsListAppend(a: seq<Tty>, b: seq<Tty>)
    ensures AllConnsList(a + b) == AllConnsList(a) + AllConnsList(b)
    decreases |a|
  {
    if |a| == 0 {
      assert a + b == b;
    } else {
      assert (a + b)[0] == a[0];
      assert (a + b)[1..] == a[1..] + b;
      AllConnsListAppend(a[1..], b);
    }
  }

  lemma {:induction false} AllConnsListPrepend(t: Tty, ts: seq<Tty>)
    ensures AllConnsList([t] + ts) == AllConns(t) + AllConnsList(ts)
  {
    assert ([t] + ts)[1..] == ts;
  }

  /** The i-th child's connections lie within the parent's. */
  lemma {:induction false} ChildConnsIncluded(ts: seq<Tty>, i: nat, c: ConnId)
    requires i < |ts| && c in AllConns(ts[i])
    ensures c in AllConnsList(ts)
    decreases i
  {
    if i > 0 {
      ChildConnsIncluded(ts[1..], i - 1, c);
    }
  }

  /** A connection of a list of trees lies in one of them. */
  lemma {:induction false} ConnInSomeChild(ts: seq<Tty>, c: ConnId) returns (i: nat)
    requires c in AllConnsList(ts)
    ensures i < |ts| && c in AllConns(ts[i])
    decreases |ts|
  {
    if c in AllConns(ts[0]) {
      i := 0;
    } else {
      var j := ConnInSomeChild(ts[1..], c);
      i := j + 1;
    }
  }

  // ---------------------------------------------------------------------------
  // Focus routing: whoFillsTty, whoGetsKey, broadcastKey
  // ---------------------------------------------------------------------------

  /** `child` is followed from `parent`: the parent has no particular focus,
      or the child's number read as a C `int` equals it. */
  predicate Focused(parent: Tty, child: Tty) {
    parent.focus == NoFocus || WrapInt32(child.number) == parent.focus
  }

  /** `c` is the first connection of `ring` satisfying `p`. */
  predicate IsFirst(ring: seq<ConnId>, p: ConnId -> bool, c: ConnId) {
    exists i :: 0 <= i < |ring| && ring[i] == c && p(c) && forall j :: 0 <= j < i ==> !p(ring[j])
  }

  /** The first connection of a ring (in ring order) that satisfies `p`. */
  function FirstConn(ring: seq<ConnId>, p: ConnId -> bool): (r: Option<ConnId>)
    ensures r.None? <==> forall i :: 0 <= i < |ring| ==> !p(ring[i])
    ensures r.Some? ==> IsFirst(ring, p, r.value)
  {
    if |ring| == 0 then None
    else if p(ring[0]) then
      assert ring[0] == ring[0];
      Some(ring[0])
    else
      var r := FirstConn(ring[1..], p);
      if r.Some? then
        ghost var i :| 0 <= i < |ring[1..]| && ring[1..][i] == r.value && p(r.value)
                       && forall j :: 0 <= j < i ==> !p(ring[1..][j]);
        assert ring[i + 1] == r.value && forall j :: 0 <= j < i + 1 ==> !p(ring[j]);
        r
      else
        assert forall i :: 1 <= i < |ring| ==> ring[i] == ring[1..][i - 1];
        None
  }

  /** Index of the first child the tty's focus selects. */
  function FocusedChild(t: Tty): (r: Option<nat>)
    ensures r.None? ==> forall i :: 0 <= i < |t.children| ==> !Focused(t, t.children[i])
    ensures r.Some? ==> r.value < |t.children| && Focused(t, t.children[r.value])
    ensures r.Some? ==> forall j :: 0 <= j < r.value ==> !Focused(t, t.children[j])
  {
    FirstFocused(t, 0)
  }

  function FirstFocused(t: Tty, from: nat): (r: Option<nat>)
    requires from <= |t.children|
    ensures r.None? ==> forall i :: from <= i < |t.children| ==> !Focused(t, t.children[i])
    ensures r.Some? ==> from <= r.value < |t.children| && Focused(t, t.children[r.value])
    ensures r.Some? ==> forall j :: from <= j < r.value ==> !Focused(t, t.children[j])
    decreases |t.children| - from
  {
    if from == |t.children| then None
    else if Focused(t, t.children[from]) then Some(from)
    else FirstFocused(t, from + 1)
  }

  /** The route whoFillsTty and whoGetsKey take: the first connection of this
      tty's ring satisfying `p`, overridden by the result of the first focused
      child when that one is found. */
  function Route(t: Tty, p: ConnId -> bool): (r: Option<ConnId>)
    decreases t
  {
    var own := FirstConn(t.ring, p);
    match FocusedChild(t)
    case None => own
    case Some(i) =>
      var sub := Route(t.children[i], p);
      if sub.Some? then sub else own
  }

  /** The ttys the focus leads through, from `t` down to the first tty with no
      focused child. */
  function FocusPath(t: Tty): (path: seq<Tty>)
    ensures |path| >= 1 && path[0] == t
    ensures forall k :: 0 <= k < |path| - 1 ==>
      FocusedChild(path[k]).Some? && path[k + 1] == path[k].children[FocusedChild(path[k]).value]
    ensures FocusedChild(path[|path| - 1]).None?
    decreases t
  {
    match FocusedChild(t)
    case None => [t]
    case Some(i) => [t] + FocusPath(t.children[i])
  }

  /** `r` is what the deepest tty of `path` that has a connection satisfying
      `p` picks, or nothing when no tty of the path has one. */
  predicate DeepestPick(path: seq<Tty>, p: ConnId -> bool, r: Option<ConnId>) {
    if r.None? then forall k :: 0 <= k < |path| ==> FirstConn(path[k].ring, p).None?
    else exists k :: 0 <= k < |path| && FirstConn(path[k].ring, p) == r
                     && forall k' :: k < k' < |path| ==> FirstConn(path[k'].ring, p).None?
  }

  /** Routing follows the focus path and the deepest tty on it that has a
      candidate wins; shallower ttys only serve as fallbacks. */
  lemma {:induction false} RouteIsDeepestPick(t: Tty, p: ConnId -> bool)
    ensures DeepestPick(FocusPath(t), p, Route(t, p))
    decreases t
  {
    match FocusedChild(t)
    case None =>
    case Some(i) =>
      var child := t.children[i];
      RouteIsDeepestPick(child, p);
      assert FocusPath(t) == [t] + FocusPath(child);
      DeepestPickCons(t, FocusPath(child), p, Route(child, p));
  }

  lemma {:induction false} DeepestPickCons(t: Tty, sub: seq<Tty>, p: ConnId -> bool, r: Option<ConnId>)
    requires DeepestPick(sub, p, r)
    ensures DeepestPick([t] + sub, p, if r.Some? then r else FirstConn(t.ring, p))
  {
    var path := [t] + sub;
    assert forall k :: 1 <= k < |path| ==> path[k] == sub[k - 1];
    if r.Some? {
      var k :| 0 <= k < |sub| && FirstConn(sub[k].ring, p) == r
               && forall k' :: k < k' < |sub| ==> FirstConn(sub[k'].ring, p).None?;
      assert path[k + 1] == sub[k];
    } else if FirstConn(t.ring, p).Some? {
      assert path[0] == t;
    }
  }

  /** A routed connection satisfies the predicate and belongs to the subtree. */
  lemma {:induction false} RouteSound(t: Tty, p: ConnId -> bool)
    ensures Route(t, p).Some? ==> p(Route(t, p).value) && Route(t, p).value in AllConns(t)
    decreases t
  {
    match FocusedChild(t)
    case None =>
    case Some(i) =>
      RouteSound(t.children[i], p);
      var r := Route(t.children[i], p);
      if r.Some? {
        ChildConnsIncluded(t.children, i, r.value);
      }
  }

  /** The connections of `ring` that satisfy `p`, in order. */
  function Filter(ring: seq<ConnId>, p: ConnId -> bool): (r: seq<ConnId>)
    ensures forall c :: c in r <==> c in ring && p(c)
  {
    if |ring| == 0 then []
    else
      assert ring == [ring[0]] + ring[1..];
      (if p(ring[0]) then [ring[0]] else []) + Filter(ring[1..], p)
  }

  /** The connections broadcastKey writes to: every connection of every tty of
      the subtree that satisfies `p`, focus notwithstanding. */
  function Broadcast(t: Tty, p: ConnId -> bool): (r: seq<ConnId>)
    ensures forall c :: c in r <==> c in AllConns(t) && p(c)
    decreases t
  {
    Filter(t.ring, p) + BroadcastList(t.children, p)
  }

  function BroadcastList(ts: seq<Tty>, p: ConnId -> bool): (r: seq<ConnId>)
    ensures forall c :: c in r <==> c in AllConnsList(ts) && p(c)
    decreases ts
  {
    if |ts| == 0 then [] else Broadcast(ts[0], p) + BroadcastList(ts[1..], p)
  }

  // ---------------------------------------------------------------------------
  // Positions in the tree
  // ---------------------------------------------------------------------------

  /** `idx` is a path of child indices leading from `t` to some tty. */
  predicate ValidIndex(t: Tty, idx: seq<nat>)
    decreases |idx|
  {
    |idx| == 0 || (idx[0] < |t.children| && ValidIndex(t.children[idx[0]], idx[1..]))
  }

  function NodeAt(t: Tty, idx: seq<nat>): Tty
    requires ValidIndex(t, idx)
    decreases |idx|
  {
    if |idx| == 0 then t else NodeAt(t.children[idx[0]], idx[1..])
  }

  /** The tty numbers met on the way down `idx`, not counting `t` itself. */
  function NumbersAlong(t: Tty, idx: seq<nat>): (ns: seq<nat>)
    requires ValidIndex(t, idx)
    ensures |ns| == |idx|
    decreases |idx|
  {
    if |idx| == 0 then [] else [t.children[idx[0]].number] + NumbersAlong(t.children[idx[0]], idx[1..])
  }

  /** `t` with the tty at `idx` replaced by `n`. */
  function ReplaceAt(t: Tty, idx: seq<nat>, n: Tty): (r: Tty)
    requires ValidIndex(t, idx)
    ensures ValidIndex(r, idx) && NodeAt(r, idx) == n
    ensures |idx| > 0 ==> r.number == t.number && r.focus == t.focus && r.ring == t.ring
    decreases |idx|
  {
    if |idx| == 0 then n
    else t.(children := t.children[idx[0] := ReplaceAt(t.children[idx[0]], idx[1..], n)])
  }

  lemma {:induction false} AllConnsListSplit(ts: seq<Tty>, i: nat)
    requires i < |ts|
    ensures AllConnsList(ts) == AllConnsList(ts[..i]) + AllConns(ts[i]) + AllConnsList(ts[i + 1..])
  {
    var tail := [ts[i]] + ts[i + 1..];
    assert ts == ts[..i] + tail;
    AllConnsListAppend(ts[..i], tail);
    AllConnsListPrepend(ts[i], ts[i + 1..]);
  }

  lemma {:induction false} MultisetSwap(a: seq<ConnId>, x: seq<ConnId>, y: seq<ConnId>, b: seq<ConnId>)
    ensures multiset(a + y + b) + multiset(x) == multiset(a + x + b) + multiset(y)
  {
  }

  lemma {:induction false} MultisetCancel(a: multiset<ConnId>, a': multiset<ConnId>, c: multiset<ConnId>,
                                         c': multiset<ConnId>, o: multiset<ConnId>, n: multiset<ConnId>)
    requires a' + c == a + c' && c' + o == c + n
    ensures a' + o == a + n
  {
    forall x
      ensures (a' + o)[x] == (a + n)[x]
    {
      assert (a' + c)[x] == (a + c')[x];
      assert (c' + o)[x] == (c + n)[x];
    }
  }

  lemma {:induction false} MultisetCancelRight(a: multiset<ConnId>, b: multiset<ConnId>,
                                              x: multiset<ConnId>, d: multiset<ConnId>)
    requires a + x == b + (x + d)
    ensures a == b + d
  {
    forall y
      ensures a[y] == (b + d)[y]
    {
      assert (a + x)[y] == (b + (x + d))[y];
    }
  }

  lemma {:induction false} AllConnsListUpdate(ts: seq<Tty>, i: nat, x: Tty)
    requires i < |ts|
    ensures multiset(AllConnsList(ts[i := x])) + multiset(AllConns(ts[i]))
         == multiset(AllConnsList(ts)) + multiset(AllConns(x))
  {
    var us := ts[i := x];
    AllConnsListSplit(ts, i);
    AllConnsListSplit(us, i);
    assert us[..i] == ts[..i] && us[i + 1..] == ts[i + 1..] && us[i] == x;
    MultisetSwap(AllConnsList(ts[..i]), AllConns(ts[i]), AllConns(x), AllConnsList(ts[i + 1..]));
  }

  lemma {:induction false} ReplaceChildConns(t: Tty, i: nat, x: Tty)
    requires i < |t.children|
    ensures multiset(AllConns(t.(children := t.children[i := x]))) + multiset(AllConns(t.children[i]))
         == multiset(AllConns(t)) + multiset(AllConns(x))
  {
    var r := t.(children := t.children[i := x]);
    AllConnsListUpdate(t.children, i, x);
    assert AllConns(r) == t.ring + AllConnsList(t.children[i := x]);
    MultisetPrefix(t.ring, AllConnsList(t.children), AllConnsList(t.children[i := x]),
                   multiset(AllConns(t.children[i])), multiset(AllConns(x)));
  }

  lemma {:induction false} MultisetPrefix(a: seq<ConnId>, l: seq<ConnId>, l': seq<ConnId>,
                                         o: multiset<ConnId>, n: multiset<ConnId>)
    requires multiset(l') + o == multiset(l) + n
    ensures multiset(a + l') + o == multiset(a + l) + n
  {
    forall x
      ensures (multiset(a + l') + o)[x] == (multiset(a + l) + n)[x]
    {
      assert (multiset(l') + o)[x] == (multiset(l) + n)[x];
    }
  }

  /** Replacing a tty swaps its subtree's connections for the new one's and
      leaves every other connection of the tree in place. */
  lemma {:induction false} ReplaceAtConns(t: Tty, idx: seq<nat>, n: Tty)
    requires ValidIndex(t, idx)
    ensures multiset(AllConns(ReplaceAt(t, idx, n))) + multiset(AllConns(NodeAt(t, idx)))
         == multiset(AllConns(t)) + multiset(AllConns(n))
    decreases |idx|
  {
    if |idx| > 0 {
      var i := idx[0];
      var child := t.children[i];
      var child' := ReplaceAt(child, idx[1..], n);
      ReplaceAtConns(child, idx[1..], n);
      ReplaceChildConns(t, i, child');
      assert ReplaceAt(t, idx, n) == t.(children := t.children[i := child']);
      assert NodeAt(t, idx) == NodeAt(child, idx[1..]);
      MultisetCancel(multiset(AllConns(t)), multiset(AllConns(ReplaceAt(t, idx, n))),
                     multiset(AllConns(child)), multiset(AllConns(child')),
                     multiset(AllConns(NodeAt(t, idx))), multiset(AllConns(n)));
    }
  }

  /** Descending through a replaced tty continues into the replacement. */
  lemma {:induction false} ReplaceAtPath(t: Tty, idx: seq<nat>, n: Tty, j: seq<nat>)
    requires ValidIndex(t, idx) && ValidIndex(n, j) && n.number == NodeAt(t, idx).number
    ensures ValidIndex(ReplaceAt(t, idx, n), idx + j)
    ensures NodeAt(ReplaceAt(t, idx, n), idx + j) == NodeAt(n, j)
    ensures NumbersAlong(ReplaceAt(t, idx, n), idx + j) == NumbersAlong(t, idx) + NumbersAlong(n, j)
    decreases |idx|
  {
    if |idx| == 0 {
      assert idx + j == j;
      assert ReplaceAt(t, idx, n) == n;
      assert NumbersAlong(t, idx) == [];
    } else {
      var child := t.children[idx[0]];
      assert (idx + j)[0] == idx[0] && (idx + j)[1..] == idx[1..] + j;
      ReplaceAtPath(child, idx[1..], n, j);
      var r := ReplaceAt(t, idx, n);
      assert r.children[idx[0]] == ReplaceAt(child, idx[1..], n);
      assert ReplaceAt(child, idx[1..], n).number == child.number;
    }
  }

  // ---------------------------------------------------------------------------
  // Where a connection is attached
  // ---------------------------------------------------------------------------

  /** The position of the first tty (node before children) whose ring holds `c`. */
  function Locate(t: Tty, c: ConnId): (r: Option<seq<nat>>)
    ensures r.Some? ==> ValidIndex(t, r.value) && c in NodeAt(t, r.value).ring
    ensures r.None? <==> c !in AllConns(t)
    decreases t, 1, 0
  {
    if c in t.ring then Some([]) else LocateFrom(t, c, 0)
  }

  function LocateFrom(t: Tty, c: ConnId, i: nat): (r: Option<seq<nat>>)
    requires i <= |t.children|
    ensures r.Some? ==> ValidIndex(t, r.value) && |r.value| > 0 && c in NodeAt(t, r.value).ring
    ensures r.None? <==> c !in AllConnsList(t.children[i..])
    decreases t, 0, |t.children| - i
  {
    if i == |t.children| then None
    else
      assert t.children[i..] == [t.children[i]] + t.children[i + 1..];
      AllConnsListPrepend(t.children[i], t.children[i + 1..]);
      match Locate(t.children[i], c)
      case Some(j) => Some([i] + j)
      case None => LocateFrom(t, c, i + 1)
  }

  /** Removes `c` from a ring, as `__removeConnection` unlinks it. */
  function Remove(ring: seq<ConnId>, c: ConnId): (r: seq<ConnId>)
    ensures multiset(r) == multiset(ring)[c := 0]
  {
    if |ring| == 0 then []
    else
      assert ring == [ring[0]] + ring[1..];
      (if ring[0] == c then [] else [ring[0]]) + Remove(ring[1..], c)
  }

  /** `t` with `c` unlinked from every ring. */
  function Detach(t: Tty, c: ConnId): (r: Tty)
    ensures multiset(AllConns(r)) == multiset(AllConns(t))[c := 0]
    ensures r.number == t.number && r.focus == t.focus && |r.children| == |t.children|
    decreases t
  {
    t.(ring := Remove(t.ring, c), children := DetachList(t.children, c))
  }

  function DetachList(ts: seq<Tty>, c: ConnId): (r: seq<Tty>)
    ensures multiset(AllConnsList(r)) == multiset(AllConnsList(ts))[c := 0]
    ensures |r| == |ts|
    decreases ts
  {
    if |ts| == 0 then []
    else
      var r := [Detach(ts[0], c)] + DetachList(ts[1..], c);
      AllConnsListPrepend(Detach(ts[0], c), DetachList(ts[1..], c));
      r
  }

  /** `t` with `c` inserted at the front of the ring at `idx`, as
      `__addConnection` links it right after the sentinel. */
  function AttachAt(t: Tty, idx: seq<nat>, c: ConnId): (r: Tty)
    requires ValidIndex(t, idx)
    ensures ValidIndex(r, idx) && NodeAt(r, idx).ring == [c] + NodeAt(t, idx).ring
    ensures NumbersAlong(r, idx) == NumbersAlong(t, idx)
    ensures multiset(AllConns(r)) == multiset(AllConns(t)) + multiset{c}
  {
    var n := NodeAt(t, idx);
    var n' := n.(ring := [c] + n.ring);
    var r := ReplaceAt(t, idx, n');
    ReplaceAtConns(t, idx, n');
    ReplaceAtPath(t, idx, n', []);
    assert idx + [] == idx;
    assert AllConns(n') == [c] + AllConns(n);
    MultisetCancelRight(multiset(AllConns(r)), multiset(AllConns(t)), multiset(AllConns(n)), multiset{c});
    r
  }

  /** `t` with the focus of the tty at `idx` set to `focus`. */
  function SetFocusAt(t: Tty, idx: seq<nat>, focus: int): (r: Tty)
    requires ValidIndex(t, idx)
    ensures ValidIndex(r, idx) && NodeAt(r, idx).focus == focus
    ensures NodeAt(r, idx).ring == NodeAt(t, idx).ring
    ensures NumbersAlong(r, idx) == NumbersAlong(t, idx)
    ensures multiset(AllConns(r)) == multiset(AllConns(t))
  {
    var n := NodeAt(t, idx);
    var n' := n.(focus := focus);
    var r := ReplaceAt(t, idx, n');
    ReplaceAtConns(t, idx, n');
    ReplaceAtPath(t, idx, n', []);
    assert idx + [] == idx;
    assert AllConns(n') == AllConns(n);
    MultisetCancelRight(multiset(AllConns(r)), multiset(AllConns(t)), multiset(AllConns(n)), multiset{});
    r
  }

  // ---------------------------------------------------------------------------
  // Following and creating a tty path (handleEnterTtyMode, newTty)
  // ---------------------------------------------------------------------------

  /** Index of the first child numbered `n`. */
  function ChildNumbered(children: seq<Tty>, n: nat): (r: Option<nat>)
    ensures r.None? ==> forall i :: 0 <= i < |children| ==> children[i].number != n
    ensures r.Some? ==> r.value < |children| && children[r.value].number == n
    ensures r.Some? ==> forall j :: 0 <= j < r.value ==> children[j].number != n
  {
    if |children| == 0 then None
    else if children[0].number == n then Some(0)
    else match ChildNumbered(children[1..], n)
      case None => None
      case Some(i) => Some(i + 1)
  }

  /** The longest prefix of the number path `path` that exists below `t`,
      as child indices, each step taking the first child with that number. */
  function Walk(t: Tty, path: seq<nat>): (idx: seq<nat>)
    ensures |idx| <= |path| && ValidIndex(t, idx)
    ensures NumbersAlong(t, idx) == path[..|idx|]
    ensures |idx| < |path| ==> ChildNumbered(NodeAt(t, idx).children, path[|idx|]).None?
    decreases |path|
  {
    if |path| == 0 then []
    else match ChildNumbered(t.children, path[0])
      case None => []
      case Some(i) =>
        var rest := Walk(t.children[i], path[1..]);
        assert ([i] + rest)[1..] == rest;
        [i] + rest
  }

  /** A fresh chain of ttys numbered `path`, each the only child of the previous. */
  function Chain(path: seq<nat>): (t: Tty)
    requires |path| > 0
    ensures t.number == path[0] && t.focus == NoFocus && t.ring == []
    decreases |path|
  {
    NewTty(path[0]).(children := if |path| == 1 then [] else [Chain(path[1..])])
  }

  function Zeros(n: nat): (z: seq<nat>)
    ensures |z| == n && forall i :: 0 <= i < n ==> z[i] == 0
  {
    if n == 0 then [] else [0] + Zeros(n - 1)
  }

  lemma {:induction false} ChainShape(path: seq<nat>)
    requires |path| > 0
    ensures AllConns(Chain(path)) == []
    ensures ValidIndex(Chain(path), Zeros(|path| - 1))
    ensures NumbersAlong(Chain(path), Zeros(|path| - 1)) == path[1..]
    ensures NodeAt(Chain(path), Zeros(|path| - 1)) == NewTty(path[|path| - 1])
    decreases |path|
  {
    var t := Chain(path);
    if |path| == 1 {
      assert t.children == [];
    } else {
      ChainShape(path[1..]);
      var z := Zeros(|path| - 1);
      assert z[0] == 0 && z[1..] == Zeros(|path| - 2);
      assert AllConnsList(t.children) == AllConns(Chain(path[1..])) + AllConnsList([]);
      assert [path[1]] + path[1..][1..] == path[1..];
    }
  }

  /** What handleEnterTtyMode does to the tree before attaching: it walks
      `path` from `t`; the first missing number and all later ones become a
      new chain of ttys, prepended to the children of the last tty found.  The
      result is the new tree and the position of the tty `path` names. */
  function EnsurePath(t: Tty, path: seq<nat>): (Tty, seq<nat>)
  {
    var idx := Walk(t, path);
    if |idx| == |path| then (t, idx)
    else
      var at := NodeAt(t, idx);
      (ReplaceAt(t, idx, at.(children := [Chain(path[|idx|..])] + at.children)),
       idx + [0] + Zeros(|path| - |idx| - 1))
  }

  /** A path into a child put first under a node. */
  lemma FirstChildPath(at: Tty, c: Tty, k: seq<nat>)
    requires ValidIndex(c, k)
    ensures ValidIndex(at.(children := [c] + at.children), [0] + k)
    ensures NumbersAlong(at.(children := [c] + at.children), [0] + k) == [c.number] + NumbersAlong(c, k)
  {
    var at' := at.(children := [c] + at.children);
    assert ([0] + k)[0] == 0 && ([0] + k)[1..] == k;
    assert at'.children[0] == c;
  }

  /** A chain grown under a node leads, through its first child and then
      first children, along the chain's numbers. */
  lemma GrowTarget(at: Tty, tail: seq<nat>)
    requires |tail| > 0
    ensures ValidIndex(at.(children := [Chain(tail)] + at.children), [0] + Zeros(|tail| - 1))
    ensures NumbersAlong(at.(children := [Chain(tail)] + at.children), [0] + Zeros(|tail| - 1)) == tail
  {
    var c := Chain(tail);
    var k := Zeros(|tail| - 1);
    ChainShape(tail);
    FirstChildPath(at, c, k);
    assert [c.number] + NumbersAlong(c, k) == tail by {
      assert tail == [tail[0]] + tail[1..];
    }
  }

  /** Growing the missing suffix of a path under the last tty found gives
      a tty reached along the whole path. */
  lemma GrowPathTarget(t: Tty, path: seq<nat>, idx: seq<nat>)
    requires idx == Walk(t, path) && |idx| < |path|
    ensures ValidIndex(EnsurePath(t, path).0, EnsurePath(t, path).1)
    ensures NumbersAlong(EnsurePath(t, path).0, EnsurePath(t, path).1) == path
  {
    var at := NodeAt(t, idx);
    var tail := path[|idx|..];
    var at' := at.(children := [Chain(tail)] + at.children);
    var j := [0] + Zeros(|tail| - 1);
    assert EnsurePath(t, path).0 == ReplaceAt(t, idx, at');
    assert EnsurePath(t, path).1 == idx + j by {
      assert idx + [0] + Zeros(|path| - |idx| - 1) == idx + j;
    }
    GrowTarget(at, tail);
    ReplaceAtPath(t, idx, at', j);
    assert path == path[..|idx|] + tail;
  }

  /** The position EnsurePath returns is a tty of the new tree, reached
      through ttys numbered exactly `path`. */
  lemma {:induction false} EnsurePathTarget(t: Tty, path: seq<nat>)
    ensures ValidIndex(EnsurePath(t, path).0, EnsurePath(t, path).1)
    ensures NumbersAlong(EnsurePath(t, path).0, EnsurePath(t, path).1) == path
  {
    var idx := Walk(t, path);
    if |idx| == |path| {
      assert path[..|idx|] == path;
    } else {
      GrowPathTarget(t, path, idx);
    }
  }

  /** Following an existing path changes nothing; otherwise the tree gains
      only connection-free ttys: the fresh chain, as the first child of the
      deepest existing tty on the path, the last of them a fresh tty. */
  lemma EnsurePathEffect(t: Tty, path: seq<nat>)
    ensures var idx := Walk(t, path);
      |idx| == |path| ==> EnsurePath(t, path) == (t, idx)
    ensures var (t', target) := EnsurePath(t, path);
      multiset(AllConns(t')) == multiset(AllConns(t))
    ensures var idx := Walk(t, path);
      |idx| < |path| ==>
        var (t', target) := EnsurePath(t, path);
        ValidIndex(t', idx)
        && NodeAt(t', idx).children == [Chain(path[|idx|..])] + NodeAt(t, idx).children
        && ValidIndex(t', target) && NodeAt(t', target) == NewTty(path[|path| - 1])
  {
    if |Walk(t, path)| < |path| {
      EnsurePathConns(t, path);
      EnsurePathGrows(t, path);
    }
  }

  /** The fresh ttys hold no connection. */
  lemma EnsurePathConns(t: Tty, path: seq<nat>)
    requires |Walk(t, path)| < |path|
    ensures multiset(AllConns(EnsurePath(t, path).0)) == multiset(AllConns(t))
  {
    var idx := Walk(t, path);
    var at := NodeAt(t, idx);
    var tail := path[|idx|..];
    var at' := at.(children := [Chain(tail)] + at.children);
    ChainShape(tail);
    var t' := ReplaceAt(t, idx, at');
    assert EnsurePath(t, path).0 == t';
    ReplaceAtConns(t, idx, at');
    AllConnsListPrepend(Chain(tail), at.children);
    assert AllConns(at') == at.ring + AllConnsList([Chain(tail)] + at.children);
    assert AllConns(at') == AllConns(at);
    var x := multiset(AllConns(at));
    assert multiset(AllConns(t')) + x == multiset(AllConns(t)) + x;
    assert x + multiset{} == x;
    MultisetCancelRight(multiset(AllConns(t')), multiset(AllConns(t)), multiset(AllConns(at)), multiset{});
  }

  /** Where the fresh chain goes, and that its last tty is the target. */
  lemma EnsurePathGrows(t: Tty, path: seq<nat>)
    requires |Walk(t, path)| < |path|
    ensures var idx := Walk(t, path);
      var (t', target) := EnsurePath(t, path);
      ValidIndex(t', idx)
      && NodeAt(t', idx).children == [Chain(path[|idx|..])] + NodeAt(t, idx).children
      && ValidIndex(t', target) && NodeAt(t', target) == NewTty(path[|path| - 1])
  {
    var idx := Walk(t, path);
    var at := NodeAt(t, idx);
    var tail := path[|idx|..];
    var at' := at.(children := [Chain(tail)] + at.children);
    ChainShape(tail);
    var j := [0] + Zeros(|tail| - 1);
    assert j[1..] == Zeros(|tail| - 1);
    assert ValidIndex(at', j) by {
      assert at'.children[0] == Chain(tail);
    }
    ReplaceAtPath(t, idx, at', j);
    assert idx + [0] + Zeros(|path| - |idx| - 1) == idx + j;
    assert NodeAt(at', j) == NodeAt(Chain(tail), Zeros(|tail| - 1));
    assert tail[|tail| - 1] == path[|path| - 1];
  }

  // ---------------------------------------------------------------------------
  // Reclamation of unused ttys (handleTtyFds)
  // ---------------------------------------------------------------------------

  /** Post-order pruning of a tty: its children are pruned first, then the tty
      itself goes when its ring and its list of remaining children are empty. */
  function Prune(t: Tty): Option<Tty>
    decreases t
  {
    var kids := PruneList(t.children);
    if t.ring == [] && kids == [] then None else Some(t.(children := kids))
  }

  function PruneList(ts: seq<Tty>): seq<Tty>
    decreases ts
  {
    if |ts| == 0 then []
    else (match Prune(ts[0]) case None => [] case Some(x) => [x]) + PruneList(ts[1..])
  }

  /** One reclamation pass from a root (`ttys` or `notty`), which is never freed. */
  function Reclaim(root: Tty): Tty {
    root.(children := PruneList(root.children))
  }

  /** Every tty of the subtree holds a connection somewhere below it. */
  predicate Occupied(t: Tty)
    decreases t
  {
    AllConns(t) != [] && forall i :: 0 <= i < |t.children| ==> Occupied(t.children[i])
  }

  /** A tty is pruned exactly when no connection lies in its subtree; what is
      kept holds the same connections in the same order and no unused tty. */
  lemma {:induction false} PruneSound(t: Tty)
    ensures Prune(t).None? <==> AllConns(t) == []
    ensures Prune(t).Some? ==> AllConns(Prune(t).value) == AllConns(t) && Occupied(Prune(t).value)
    decreases t, 1
  {
    PruneListSound(t.children);
  }

  lemma {:induction false} PruneListSound(ts: seq<Tty>)
    ensures AllConnsList(PruneList(ts)) == AllConnsList(ts)
    ensures forall i :: 0 <= i < |PruneList(ts)| ==> Occupied(PruneList(ts)[i])
    decreases ts, 0
  {
    if |ts| > 0 {
      PruneSound(ts[0]);
      PruneListSound(ts[1..]);
      PruneListStep(ts);
    }
  }

  lemma {:induction false} PruneListStep(ts: seq<Tty>)
    requires |ts| > 0
    requires Prune(ts[0]).None? <==> AllConns(ts[0]) == []
    requires Prune(ts[0]).Some? ==> AllConns(Prune(ts[0]).value) == AllConns(ts[0]) && Occupied(Prune(ts[0]).value)
    requires AllConnsList(PruneList(ts[1..])) == AllConnsList(ts[1..])
    requires forall i :: 0 <= i < |PruneList(ts[1..])| ==> Occupied(PruneList(ts[1..])[i])
    ensures AllConnsList(PruneList(ts)) == AllConnsList(ts)
    ensures forall i :: 0 <= i < |PruneList(ts)| ==> Occupied(PruneList(ts)[i])
  {
    var rest := PruneList(ts[1..]);
    assert AllConnsList(ts) == AllConns(ts[0]) + AllConnsList(ts[1..]);
    match Prune(ts[0])
    case None =>
      assert PruneList(ts) == rest;
    case Some(x) =>
      assert PruneList(ts) == [x] + rest;
      AllConnsListPrepend(x, rest);
      assert forall i :: 1 <= i < |PruneList(ts)| ==> PruneList(ts)[i] == rest[i - 1];
  }

  /** Reclamation frees every connection-free tty below the root in a single
      pass, keeps the root and every connection (in order). */
  lemma {:induction false} ReclaimSound(root: Tty)
    ensures var r := Reclaim(root);
      r.number == root.number && r.focus == root.focus && r.ring == root.ring
      && AllConns(r) == AllConns(root)
      && forall i :: 0 <= i < |r.children| ==> Occupied(r.children[i])
  {
    PruneListSound(root.children);
  }

  /** Pruning what is already occupied changes nothing. */
  lemma {:induction false} PruneOccupied(t: Tty)
    requires Occupied(t)
    ensures Prune(t) == Some(t)
    decreases t, 1
  {
    PruneListOccupied(t.children);
    assert t.ring != [] || t.children != [] by {
      assert AllConns(t) == t.ring + AllConnsList(t.children);
    }
  }

  lemma {:induction false} PruneListOccupied(ts: seq<Tty>)
    requires forall i :: 0 <= i < |ts| ==> Occupied(ts[i])
    ensures PruneList(ts) == ts
    decreases ts, 0
  {
    if |ts| > 0 {
      PruneOccupied(ts[0]);
      PruneListOccupied(ts[1..]);
      assert ts == [ts[0]] + ts[1..];
    }
  }

  /** A second pass finds nothing more to free. */
  lemma {:induction false} ReclaimIdempotent(root: Tty)
    ensures Reclaim(Reclaim(root)) == Reclaim(root)
  {
    ReclaimSound(root);
    PruneListOccupied(Reclaim(root).children);
  }
}
