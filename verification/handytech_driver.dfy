/** The HandyTech driver's write/acknowledge cycle (Drivers/Braille/HandyTech/
    braille.c): the display acknowledges every write of the cells, the
    driver writes again only once acknowledged, rewrites after a second
    without an answer, and restarts after five unanswered attempts.
    brl_readCommand reads the packets waiting and either stops at the first
    key or, having drained them, decides on a rewrite. */
module HandyTechDriver {
  import opened Common
  import opened HandyTech

  /** BDS_OFF, BDS_READY, BDS_WRITING. */
  datatype State = Off | Ready | Writing

  /** The driver's static state: the current state, how often it has been
      entered again in a row, and whether the cells must be written. */
  datatype Driver = Driver(state: State, retries: nat, updateRequired: bool)

  /** What brl_readCommand returns: EOF (no command; keys go through the key
      table) or BRL_CMD_RESTARTBRL. */
  datatype Command = Eof | Restart

  /** How a model turns key bytes into key events. */
  datatype Kind = Bookworm | Keys(textCells: nat, statusCells: nat)

  /** The model's interpretByte. */
  function Interpret(kind: Kind, b: byte): Option<seq<KeyEvent>>
  {
    match kind
    case Bookworm => InterpretBookworm(b)
    case Keys(textCells, statusCells) => InterpretKey(b, textCells, statusCells)
  }

  /** setState: entering the current state again counts a retry; entering
      another one resets the count. Each call also restarts the one-second
      state period, whose expiry brl_readCommand is told as a parameter. */
  function SetState(d: Driver, s: State): (r: Driver)
    ensures r.state == s && r.updateRequired == d.updateRequired
    ensures d.state == s ==> r.retries == d.retries + 1
    ensures d.state != s ==> r.retries == 0
  {
    if d.state == s then d.(retries := d.retries + 1)
    else Driver(s, 0, d.updateRequired)
  }

  /** `n` calls of setState with the same state. */
  function SetStateTimes(d: Driver, s: State, n: nat): Driver
    decreases n
  {
    if n == 0 then d else SetStateTimes(SetState(d, s), s, n - 1)
  }

  /** The retry count counts the calls after the first that entered the
      state. */
  lemma {:induction false} RetriesCount(d: Driver, s: State, n: nat)
    requires n > 0
    ensures var r := SetStateTimes(d, s, n);
      && r.state == s && r.updateRequired == d.updateRequired
      && r.retries == (if d.state == s then d.retries + n else n - 1)
    decreases n
  {
    if n > 1 {
      RetriesCount(SetState(d, s), s, n - 1);
    }
  }

  /** The driver state once identifyModel has set it up: no update pending,
      state Off, then setState(BDS_READY), which counts no retry because the
      state changes. */
  function Identified(): (r: Driver)
    ensures r.state == Ready && r.retries == 0 && !r.updateRequired
  {
    SetState(Driver(Off, 0, false), Ready)
  }

  /** writeCells: the model's writer sends the cells (`writeOk` is whether
      the transport took them), and a successful write enters BDS_WRITING. */
  function WriteCells(d: Driver, writeOk: bool): (r: Option<Driver>)
    ensures r.Some? <==> writeOk
    ensures r.Some? ==> r.value.state == Writing && r.value.updateRequired == d.updateRequired
  {
    if writeOk then Some(SetState(d, Writing)) else None
  }

  /** updateCells: nothing to do unless an update is pending and the display
      has acknowledged the last write; then a failed write turns the display
      off and reports failure, and a successful one clears the update. */
  function UpdateCells(d: Driver, writeOk: bool): (r: (Driver, bool))
  {
    if !d.updateRequired || d.state != Ready then (d, true)
    else match WriteCells(d, writeOk)
      case None => (SetState(d, Off), false)
      case Some(w) => (w.(updateRequired := false), true)
  }

  /** After updateCells no update waits on a ready display: either it was
      written (now waiting for the acknowledgement), or the write failed and
      the display is off. Nothing changes unless an update was pending on a
      ready display. */
  lemma UpdateCellsSettles(d: Driver, writeOk: bool)
    ensures var (r, ok) := UpdateCells(d, writeOk);
      && !(r.state == Ready && r.updateRequired)
      && (!ok <==> d.state == Ready && d.updateRequired && !writeOk)
      && (!ok ==> r == Driver(Off, 0, true))
      && (d.state == Ready && d.updateRequired && writeOk ==> r == Driver(Writing, 0, false))
      && (!(d.state == Ready && d.updateRequired) ==> r == d)
  {
  }

  /** A second updateCells finds nothing to do. */
  lemma UpdateCellsIdempotent(d: Driver, writeOk: bool, writeOk2: bool)
    ensures var r := UpdateCells(d, writeOk).0;
      UpdateCells(r, writeOk2) == (r, true)
  {
    UpdateCellsSettles(d, writeOk);
  }

  /** brl_writeWindow and brl_writeStatus: changed cells mark an update;
      the window (and not the status) then calls updateCells. */
  function WriteWindow(d: Driver, changed: bool, writeOk: bool): (r: Driver)
  {
    UpdateCells(if changed then d.(updateRequired := true) else d, writeOk).0
  }

  function WriteStatus(d: Driver, changed: bool): (r: Driver)
    ensures r.state == d.state && r.retries == d.retries
    ensures r.updateRequired <==> d.updateRequired || changed
  {
    if changed then d.(updateRequired := true) else d
  }

  /** Changed cells on a ready display are written at once; on a display
      still writing or off they wait, marked. */
  lemma WriteWindowEffect(d: Driver, writeOk: bool)
    ensures d.state == Ready && writeOk ==> WriteWindow(d, true, writeOk) == Driver(Writing, 0, false)
    ensures d.state == Ready && !writeOk ==> WriteWindow(d, true, writeOk) == Driver(Off, 0, true)
    ensures d.state != Ready ==> WriteWindow(d, true, writeOk) == d.(updateRequired := true)
  {
    UpdateCellsSettles(d.(updateRequired := true), writeOk);
  }

  // ---------------------------------------------------------------------------
  // One packet of brl_readCommand
  // ---------------------------------------------------------------------------

  /** After one packet: carry on with the next one, or stop at a key. */
  datatype Step = Continue(d: Driver) | KeyPressed(d: Driver, events: seq<KeyEvent>)

  /** The data byte of an extended packet, when it has one. */
  function ExtendedByte(p: seq<byte>): Option<byte>
  {
    if |p| >= 5 then Some(p[4]) else None
  }

  /** An acknowledgement: a NAK or ACK packet, or an extended confirmation
      carrying one. None when the packet is neither. */
  function Acknowledgement(p: seq<byte>): (r: Option<byte>)
    requires |p| > 0
    ensures r.Some? ==> r.value == PktNak || r.value == PktAck
  {
    if p[0] == PktNak || p[0] == PktAck then Some(p[0])
    else if p[0] == PktExtended && |p| >= 5 && p[3] == ExtConfirmation && (p[4] == PktNak || p[4] == PktAck) then Some(p[4])
    else None
  }

  /** A packet in BDS_READY: an extended key packet or a plain packet is a
      key when the model's interpretByte accepts its byte. Every other packet
      (scan codes, the clock, touch and reading position reports among them)
      is passed over. */
  function ReadyPacket(d: Driver, p: seq<byte>, kind: Kind): (r: Step)
    requires |p| > 0
    ensures r.d == d
  {
    var key := if p[0] == PktExtended then (if |p| >= 5 && p[3] == ExtKey then ExtendedByte(p) else None) else Some(p[0]);
    match key
    case None => Continue(d)
    case Some(b) =>
      match Interpret(kind, b)
      case None => Continue(d)
      case Some(es) => KeyPressed(d, es)
  }

  /** The switch of brl_readCommand on one framed packet from a display of
      model `own`: the display's OK makes it ready with an update pending;
      a display that is off ignores everything else; an acknowledgement ends
      a write (a NAK asking for the cells again); anything else while writing
      is treated as in BDS_READY. */
  function HandlePacket(d: Driver, p: seq<byte>, own: byte, kind: Kind): (r: Step)
    requires |p| > 0
  {
    if p[0] == PktOk then
      if |p| >= 2 && p[1] == own then Continue(SetState(d, Ready).(updateRequired := true))
      else Continue(d)
    else
      match d.state
      case Off => Continue(d)
      case Writing =>
        (match Acknowledgement(p)
         case Some(a) => Continue(SetState(if a == PktNak then d.(updateRequired := true) else d, Ready))
         case None => ReadyPacket(d, p, kind))
      case Ready => ReadyPacket(d, p, kind)
  }

  /** A display that is off is woken only by its own OK packet. */
  lemma OffIgnores(d: Driver, p: seq<byte>, own: byte, kind: Kind)
    requires d.state == Off && |p| > 0
    ensures HandlePacket(d, p, own, kind) == Continue(d) <==> !(p[0] == PktOk && |p| >= 2 && p[1] == own)
    ensures HandlePacket(d, p, own, kind).Continue?
  {
  }

  /** A key reaches the key table only from a display that is not off, and
      then as the model decodes the key byte; the driver state is kept. */
  lemma KeysOnlyWhenOn(d: Driver, p: seq<byte>, own: byte, kind: Kind)
    requires |p| > 0
    ensures var r := HandlePacket(d, p, own, kind);
      r.KeyPressed? ==>
        && d.state != Off && r.d == d && p[0] != PktOk
        && Interpret(kind, if p[0] == PktExtended then p[4] else p[0]) == Some(r.events)
  {
  }

  /** Which packets change the driver: the own OK packet in any state, and
      an acknowledgement while writing; every other packet leaves it as it
      was. */
  lemma HandlePacketChanges(d: Driver, p: seq<byte>, own: byte, kind: Kind)
    requires |p| > 0
    ensures HandlePacket(d, p, own, kind).d != d ==>
      (p[0] == PktOk && p[1] == own) || (d.state == Writing && Acknowledgement(p).Some?)
    ensures p[0] == PktOk && |p| >= 2 && p[1] == own ==>
      HandlePacket(d, p, own, kind).d.state == Ready && HandlePacket(d, p, own, kind).d.updateRequired
  {
  }

  // ---------------------------------------------------------------------------
  // brl_readCommand
  // ---------------------------------------------------------------------------

  /** How the packet loop ends: the input drained, or a key, with the bytes
      still unread. */
  datatype LoopEnd = Drained(d: Driver) | Pressed(d: Driver, events: seq<KeyEvent>, rest: seq<byte>)

  /** The packet loop: brl_readPacket into a buffer of `size` bytes until it
      finds nothing more or a packet is a key. */
  function ReadLoop(d: Driver, input: seq<byte>, size: nat, own: byte, kind: Kind): (r: LoopEnd)
    requires size >= 4
    ensures r.Pressed? ==> |r.rest| < |input|
    decreases |input|
  {
    var read := ReadPacket(input, size);
    match read.packet
    case None => Drained(d)
    case Some(p) =>
      ReadPacketSound(input, size);
      match HandlePacket(d, p, own, kind)
      case KeyPressed(d1, es) => Pressed(d1, es, read.rest)
      case Continue(d1) => ReadLoop(d1, read.rest, size, own, kind)
  }

  /** The result of brl_readCommand: the driver afterwards, the command, the
      key events handed to the key table and the bytes still unread. */
  datatype Outcome = Outcome(driver: Driver, command: Command, events: seq<KeyEvent>, rest: seq<byte>)

  /** brl_readCommand over the bytes waiting at the port. A key ends the
      call after updateCells. When not even one packet came and the display
      has not acknowledged the last write within the state period
      (`periodElapsed`), the cells are written again, or the driver restarts
      when four rewrites went unanswered or the write fails. Otherwise the
      call ends with updateCells. `writeOk` is the transport's answer to the
      one write a call can make. Read errors are not modelled. */
  function ReadCommand(d: Driver, input: seq<byte>, size: nat, own: byte, kind: Kind, periodElapsed: bool, writeOk: bool): (r: Outcome)
    requires size >= 4
  {
    match ReadLoop(d, input, size, own, kind)
    case Pressed(d1, es, rest) => Outcome(UpdateCells(d1, writeOk).0, Eof, es, rest)
    case Drained(d1) =>
      var noInput := ReadPacket(input, size).packet.None?;
      if noInput && d1.state == Writing && periodElapsed then
        if d1.retries > 3 then Outcome(d1, Restart, [], [])
        else match WriteCells(d1, writeOk)
          case None => Outcome(d1, Restart, [], [])
          case Some(w) => Outcome(UpdateCells(w, writeOk).0, Eof, [], [])
      else Outcome(UpdateCells(d1, writeOk).0, Eof, [], [])
  }

  /** Whenever brl_readCommand returns EOF, no update waits on a display
      that is ready for it; it restarts only from BDS_WRITING, when not one
      packet came in the elapsed state period, and leaves the state as it
      was. */
  lemma ReadCommandSettles(d: Driver, input: seq<byte>, size: nat, own: byte, kind: Kind, periodElapsed: bool, writeOk: bool)
    requires size >= 4
    ensures var r := ReadCommand(d, input, size, own, kind, periodElapsed, writeOk);
      r.command == Eof ==> !(r.driver.state == Ready && r.driver.updateRequired)
    ensures var r := ReadCommand(d, input, size, own, kind, periodElapsed, writeOk);
      r.command == Restart ==>
        d.state == Writing && periodElapsed && ReadPacket(input, size).packet.None? && r.driver == d
  {
    match ReadLoop(d, input, size, own, kind)
    case Pressed(d1, es, rest) =>
      UpdateCellsSettles(d1, writeOk);
    case Drained(d1) =>
      UpdateCellsSettles(d1, writeOk);
      if WriteCells(d1, writeOk).Some? {
        UpdateCellsSettles(WriteCells(d1, writeOk).value, writeOk);
      }
  }

  /** One packet of a single byte: any byte but OK and EXT frames alone. */
  lemma SingleBytePacket(b: byte, rest: seq<byte>, size: nat)
    requires size >= 4 && b != PktOk && b != PktExtended
    ensures ReadPacket([b] + rest, size) == Read(Some([b]), rest)
  {
    ReadPacketComplete([b], rest, size);
  }

  /** The two bytes of an OK packet frame together. */
  lemma OkPacket(m: byte, rest: seq<byte>, size: nat)
    requires size >= 4
    ensures ReadPacket([PktOk, m] + rest, size) == Read(Some([PktOk, m]), rest)
  {
    ReadPacketComplete([PktOk, m], rest, size);
  }

  /** Nothing to read. */
  lemma ReadNothing(d: Driver, size: nat, own: byte, kind: Kind)
    requires size >= 4
    ensures ReadLoop(d, [], size, own, kind) == Drained(d)
    ensures ReadPacket([], size).packet.None?
  {
  }

  /** A write the display does not acknowledge within the state period is
      repeated, counting a retry, until four retries have gone unanswered;
      then, or when the rewrite fails, the driver restarts. */
  lemma TimeoutRewrites(d: Driver, size: nat, own: byte, kind: Kind, writeOk: bool)
    requires size >= 4 && d.state == Writing
    ensures var r := ReadCommand(d, [], size, own, kind, true, writeOk);
      if d.retries <= 3 && writeOk then r == Outcome(d.(retries := d.retries + 1), Eof, [], [])
      else r == Outcome(d, Restart, [], [])
  {
    ReadNothing(d, size, own, kind);
  }

  /** Before the state period runs out, a call with nothing to read changes
      nothing on a display that is writing. */
  lemma WaitingKeepsWriting(d: Driver, size: nat, own: byte, kind: Kind, writeOk: bool)
    requires size >= 4 && d.state == Writing
    ensures ReadCommand(d, [], size, own, kind, false, writeOk) == Outcome(d, Eof, [], [])
  {
    ReadNothing(d, size, own, kind);
  }

  /** `n` calls of brl_readCommand with nothing to read, each after the state
      period, every rewrite succeeding; None when one of them restarts. */
  function IdleCalls(d: Driver, n: nat, size: nat, own: byte, kind: Kind): Option<Driver>
    requires size >= 4
    decreases n
  {
    if n == 0 then Some(d)
    else
      var r := ReadCommand(d, [], size, own, kind, true, true);
      if r.command == Restart then None else IdleCalls(r.driver, n - 1, size, own, kind)
  }

  /** An unanswered write with `k` retries behind it is repeated 4 - k more
      times, and the call after that restarts the driver: five writes in
      all from the first. */
  lemma {:induction false} UnansweredRestarts(k: nat, u: bool, size: nat, own: byte, kind: Kind)
    requires size >= 4 && k <= 4
    ensures IdleCalls(Driver(Writing, k, u), 4 - k, size, own, kind) == Some(Driver(Writing, 4, u))
    ensures ReadCommand(Driver(Writing, 4, u), [], size, own, kind, true, true).command == Restart
    decreases 4 - k
  {
    TimeoutRewrites(Driver(Writing, k, u), size, own, kind, true);
    if k < 4 {
      UnansweredRestarts(k + 1, u, size, own, kind);
    }
  }

  /** A NAK while writing asks for the cells again: they are rewritten at
      once, and the driver waits for the new acknowledgement. */
  lemma NakRewrites(d: Driver, size: nat, own: byte, kind: Kind, periodElapsed: bool)
    requires size >= 4 && d.state == Writing
    ensures ReadCommand(d, [PktNak], size, own, kind, periodElapsed, true) == Outcome(Driver(Writing, 0, false), Eof, [], [])
  {
    SingleBytePacket(PktNak, [], size);
    assert [PktNak] + [] == [PktNak];
    var d1 := SetState(d.(updateRequired := true), Ready);
    assert HandlePacket(d, [PktNak], own, kind) == Continue(d1);
    ReadNothing(d1, size, own, kind);
  }

  /** An ACK while writing makes the display ready; pending cells go out at
      once, and otherwise the driver waits for new cells. */
  lemma AckReady(d: Driver, size: nat, own: byte, kind: Kind, periodElapsed: bool)
    requires size >= 4 && d.state == Writing
    ensures ReadCommand(d, [PktAck], size, own, kind, periodElapsed, true).driver ==
      if d.updateRequired then Driver(Writing, 0, false) else Driver(Ready, 0, false)
  {
    SingleBytePacket(PktAck, [], size);
    assert [PktAck] + [] == [PktAck];
    var d1 := SetState(d, Ready);
    assert HandlePacket(d, [PktAck], own, kind) == Continue(d1);
    ReadNothing(d1, size, own, kind);
  }

  /** The display's OK for its own model, in any state, has the cells
      written; when the write fails the display is off with the update still
      pending. */
  lemma OwnOkWrites(d: Driver, size: nat, own: byte, kind: Kind, periodElapsed: bool, writeOk: bool)
    requires size >= 4
    ensures ReadCommand(d, [PktOk, own], size, own, kind, periodElapsed, writeOk).driver ==
      if writeOk then Driver(Writing, 0, false) else Driver(Off, 0, true)
  {
    OkPacket(own, [], size);
    assert [PktOk, own] + [] == [PktOk, own];
    var d1 := SetState(d, Ready).(updateRequired := true);
    assert HandlePacket(d, [PktOk, own], own, kind) == Continue(d1);
    ReadNothing(d1, size, own, kind);
  }

  /** A key byte reaches the key table from a display that is on, unless
      it is an acknowledgement the writing display takes; the call ends at
      it, leaving the bytes after it unread. */
  lemma KeyByteReported(d: Driver, b: byte, rest: seq<byte>, size: nat, own: byte, kind: Kind, periodElapsed: bool, writeOk: bool)
    requires size >= 4 && b != PktOk && b != PktExtended
    requires d.state == Ready || (d.state == Writing && b != PktNak && b != PktAck)
    requires Interpret(kind, b).Some?
    ensures ReadCommand(d, [b] + rest, size, own, kind, periodElapsed, writeOk) ==
      Outcome(UpdateCells(d, writeOk).0, Eof, Interpret(kind, b).value, rest)
  {
    SingleBytePacket(b, rest, size);
    assert HandlePacket(d, [b], own, kind) == KeyPressed(d, Interpret(kind, b).value);
  }
}
