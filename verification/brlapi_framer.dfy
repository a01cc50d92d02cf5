/** The BrlAPI server's per-connection packet reader.

    A BrlAPI packet on the wire is an eight-byte header -- the content size and
    the packet type, each a big-endian 32-bit word -- followed by `size` bytes
    of content.  The server reads a connection's socket without blocking, so a
    packet can arrive over any number of `read` calls; the reader keeps its
    progress in a per-connection state machine between calls.

    The socket is modelled as the bytes the peer has sent (`input`) and the
    outcomes of the successive `read` system calls (`outcomes`): each call
    either delivers up to some number of bytes, would block, was interrupted by
    a signal, or failed. */
module BrlapiFramer {
  import opened Common

  /** Bytes in a packet header: the size word and the type word. */
  const HeaderSize: nat := 8
  /** The largest content the protocol allows (BRLAPI_MAXPACKETSIZE of the
      BrlAPI protocol header). */
  const MaxPacketSize: nat := 4096

  datatype ReaderState = ReadingHeader | ReadingContent | Discarding

  /** The reader's progress.  `want` is how many bytes the next `read` asks
      for; `header` collects header bytes while the header is incomplete;
      `size` and `ptype` are the decoded header fields once it is complete;
      `content` collects the content bytes read so far.  While discarding, the
      bytes land in a scratch buffer and are not kept. */
  datatype Reader = Reader(
    state: ReaderState,
    readBytes: nat,
    want: nat,
    header: seq<byte>,
    size: nat,
    ptype: nat,
    content: seq<byte>)

  /** A complete packet as handed to the request dispatcher. */
  datatype Packet = Packet(ptype: nat, content: seq<byte>)

  /** What one `read` system call does. */
  datatype ReadOutcome =
    | Deliver(limit: nat)   // returns min(limit, want, bytes still unread) bytes
    | WouldBlock            // -1 with EAGAIN
    | Interrupted           // -1 with EINTR
    | Failed                // -1 with any other errno

  /** Result of one call of the reader: `code` is -2 at end of file, -1 on a
      read error, 0 when the packet is not complete yet, 1 when `packet`
      holds a complete packet.  `input` and `outcomes` are what is left. */
  datatype ReadResult = ReadResult(
    code: int,
    reader: Reader,
    packet: Option<Packet>,
    input: seq<byte>,
    outcomes: seq<ReadOutcome>)

  /** The state a connection's reader starts in and returns to after each packet. */
  function Reset(): (r: Reader)
    ensures Inv(r, [])
  {
    Reader(ReadingHeader, 0, HeaderSize, [], 0, 0, [])
  }

  // ---------------------------------------------------------------------------
  // Reference definition of the wire format.

  /** The bytes of a packet of type `ptype` carrying `content`. */
  function Frame(ptype: nat, content: seq<byte>): seq<byte> {
    ToBigEndian(|content|, 4) + ToBigEndian(ptype, 4) + content
  }

  /** `bytes` is exactly one well-formed packet whose content fits the
      protocol's limit, and `p` is that packet. */
  predicate IsFrameOf(bytes: seq<byte>, p: Packet) {
    |bytes| >= HeaderSize
    && BigEndian(bytes[..4]) <= MaxPacketSize
    && |bytes| == HeaderSize + BigEndian(bytes[..4])
    && p == Packet(BigEndian(bytes[4..8]), bytes[HeaderSize..])
  }

  // ---------------------------------------------------------------------------
  // The reader.

  /** What the reader has seen since its last reset: `consumed` is every byte
      taken from the socket since then, and the reader's fields agree with
      it. */
  ghost predicate Inv(r: Reader, consumed: seq<byte>) {
    match r.state
    case ReadingHeader =>
      |consumed| < HeaderSize && r.readBytes == |consumed|
      && r.want == HeaderSize - |consumed| && r.header == consumed
    case ReadingContent =>
      |consumed| == HeaderSize + r.readBytes
      && r.size == BigEndian(consumed[..4]) && r.ptype == BigEndian(consumed[4..8])
      && 0 < r.size <= MaxPacketSize && r.readBytes < r.size
      && r.want == r.size - r.readBytes && r.content == consumed[HeaderSize..]
    case Discarding =>
      |consumed| == HeaderSize + r.readBytes
      && r.size == BigEndian(consumed[..4]) && r.size > MaxPacketSize
      && r.readBytes <= r.size && r.want == Min(r.size - r.readBytes, MaxPacketSize)
  }

  /** The bookkeeping after `read` returned `chunk` (non-empty, at most
      `want` bytes).  Returns the new reader and, when the packet is complete,
      the packet (the reader is then reset). */
  function Absorb(r: Reader, chunk: seq<byte>): (Reader, Option<Packet>)
    requires 0 < |chunk| <= r.want
  {
    var readBytes := r.readBytes + |chunk|;
    match r.state
    case ReadingHeader =>
      var header := r.header + chunk;
      if readBytes == HeaderSize && |header| == HeaderSize then
        var size := BigEndian(header[..4]);
        var ptype := BigEndian(header[4..8]);
        if size == 0 then (Reset(), Some(Packet(ptype, [])))
        else if size <= MaxPacketSize then
          (Reader(ReadingContent, 0, size, header, size, ptype, []), None)
        else
          (Reader(Discarding, 0, MaxPacketSize, header, size, ptype, []), None)
      else
        (r.(readBytes := readBytes, want := r.want - |chunk|, header := header), None)
    case ReadingContent =>
      var content := r.content + chunk;
      if readBytes == r.size then (Reset(), Some(Packet(r.ptype, content)))
      else (r.(readBytes := readBytes, want := r.want - |chunk|, content := content), None)
    case Discarding =>
      var want := if readBytes <= r.size then Min(r.size - readBytes, MaxPacketSize) else 0;
      (r.(readBytes := readBytes, want := want), None)
  }

  /** One call of the reader: it keeps reading until a packet is complete,
      the socket would block, end of file, or an error.  When no outcome is
      left the socket is taken to have nothing more to offer now, which the
      reader sees as a read that would block. */
  function ReadPacket(r: Reader, input: seq<byte>, outcomes: seq<ReadOutcome>): (res: ReadResult)
    decreases |outcomes|
  {
    if |outcomes| == 0 then ReadResult(0, r, None, input, outcomes)
    else
      match outcomes[0]
      case Interrupted => ReadPacket(r, input, outcomes[1..])
      case WouldBlock => ReadResult(0, r, None, input, outcomes[1..])
      case Failed => ReadResult(-1, r, None, input, outcomes[1..])
      case Deliver(limit) =>
        var k := Min(Min(limit, r.want), |input|);
        if k == 0 then ReadResult(-2, r, None, input, outcomes[1..])
        else
          var (r', done) := Absorb(r, input[..k]);
          if done.Some? then ReadResult(1, r', done, input[k..], outcomes[1..])
          else ReadPacket(r', input[k..], outcomes[1..])
  }

  // ---------------------------------------------------------------------------
  // Properties.

  /** Each read's bookkeeping keeps the reader in step with the bytes it has
      taken, and a packet is reported exactly when those bytes form one
      complete, well-formed packet. */
  lemma AbsorbKeepsInv(r: Reader, consumed: seq<byte>, chunk: seq<byte>)
    requires Inv(r, consumed) && 0 < |chunk| <= r.want
    ensures Absorb(r, chunk).1.Some? ==>
              IsFrameOf(consumed + chunk, Absorb(r, chunk).1.value) && Absorb(r, chunk).0 == Reset()
    ensures Absorb(r, chunk).1.None? ==> Inv(Absorb(r, chunk).0, consumed + chunk)
  {
    var all := consumed + chunk;
    match r.state
    case ReadingHeader =>
      assert r.header + chunk == all;
      if |all| == HeaderSize {
        assert all[HeaderSize..] == [];
      }
    case ReadingContent =>
      assert all[..4] == consumed[..4] && all[4..8] == consumed[4..8];
      assert all[HeaderSize..] == r.content + chunk;
    case Discarding =>
      assert all[..4] == consumed[..4];
  }

  /** What one call of the reader guarantees about its result `res`, given
      the bytes `consumed` since the last reset and the unread `input`. */
  ghost predicate ReadSound(consumed: seq<byte>, input: seq<byte>, res: ReadResult) {
    |res.input| <= |input| && res.input == input[|input| - |res.input|..]
    && -2 <= res.code <= 1
    && (res.code == 1 ==>
          res.packet.Some? && res.reader == Reset()
          && IsFrameOf(consumed + input[..|input| - |res.input|], res.packet.value))
    && (res.code != 1 ==> Inv(res.reader, consumed + input[..|input| - |res.input|]))
  }

  /** Whatever the read outcomes, one call of the reader takes a prefix of the
      unread bytes; when it reports a packet, the bytes taken since the last
      reset are exactly that packet's frame and the reader is reset; otherwise
      the reader still agrees with everything taken since the last reset. */
  lemma {:induction false} ReadPacketSound(r: Reader, consumed: seq<byte>, input: seq<byte>, outcomes: seq<ReadOutcome>)
    requires Inv(r, consumed)
    ensures ReadSound(consumed, input, ReadPacket(r, input, outcomes))
    decreases |outcomes|, 1
  {
    assert input[..0] == [] && consumed + [] == consumed;
    if |outcomes| > 0 {
      match outcomes[0]
      case Interrupted => ReadPacketSound(r, consumed, input, outcomes[1..]);
      case WouldBlock =>
      case Failed =>
      case Deliver(limit) =>
        var k := Min(Min(limit, r.want), |input|);
        if k > 0 {
          DeliverSound(r, consumed, input, outcomes, k);
        }
    }
  }

  /** The step of `ReadPacketSound` where `read` returned `k` bytes. */
  lemma {:induction false} DeliverSound(r: Reader, consumed: seq<byte>, input: seq<byte>, outcomes: seq<ReadOutcome>, k: nat)
    requires Inv(r, consumed) && |outcomes| > 0 && outcomes[0].Deliver?
    requires k == Min(Min(outcomes[0].limit, r.want), |input|) && k > 0
    ensures ReadSound(consumed, input, ReadPacket(r, input, outcomes))
    decreases |outcomes|, 0
  {
    var chunk := input[..k];
    AbsorbKeepsInv(r, consumed, chunk);
    DeliverStep(r, input, outcomes, k);
    var step := Absorb(r, chunk);
    if step.1.None? {
      ReadPacketSound(step.0, consumed + chunk, input[k..], outcomes[1..]);
      ReadSoundAppend(consumed, chunk, input, k, ReadPacket(step.0, input[k..], outcomes[1..]));
    } else {
      assert input[..|input| - |input[k..]|] == chunk;
    }
  }

  /** Soundness of the rest of a call, after a first read of `chunk`, is
      soundness of the whole call. */
  lemma ReadSoundAppend(consumed: seq<byte>, chunk: seq<byte>, input: seq<byte>, k: nat, res: ReadResult)
    requires k <= |input| && chunk == input[..k]
    requires ReadSound(consumed + chunk, input[k..], res)
    ensures ReadSound(consumed, input, res)
  {
    var taken := input[k..][..|input[k..]| - |res.input|];
    assert input[..|input| - |res.input|] == chunk + taken;
    assert consumed + chunk + taken == consumed + input[..|input| - |res.input|];
  }

  /** Unfolds one call of `read` that returned `k` bytes. */
  lemma DeliverStep(r: Reader, input: seq<byte>, outcomes: seq<ReadOutcome>, k: nat)
    requires |outcomes| > 0 && outcomes[0].Deliver?
    requires k == Min(Min(outcomes[0].limit, r.want), |input|) && k > 0
    ensures var step := Absorb(r, input[..k]);
      ReadPacket(r, input, outcomes)
      == if step.1.Some? then ReadResult(1, step.0, step.1, input[k..], outcomes[1..])
         else ReadPacket(step.0, input[k..], outcomes[1..])
  {
  }

  /** Two frames that both begin a byte stream are the same frame: the size
      word fixes the length. */
  lemma FrameIsDetermined(a: seq<byte>, b: seq<byte>, s: seq<byte>, p: Packet, q: Packet)
    requires a <= s && b <= s && IsFrameOf(a, p) && IsFrameOf(b, q)
    ensures a == b && p == q
  {
    assert a[..4] == s[..4] == b[..4];
  }

  /** Chunking does not matter: however the socket splits the bytes into
      reads, two fresh readers that each complete a packet from the same byte
      stream report the same packet and leave the same bytes unread. */
  lemma ChunkingIndependence(input: seq<byte>, o1: seq<ReadOutcome>, o2: seq<ReadOutcome>)
    requires ReadPacket(Reset(), input, o1).code == 1
    requires ReadPacket(Reset(), input, o2).code == 1
    ensures ReadPacket(Reset(), input, o1).packet == ReadPacket(Reset(), input, o2).packet
    ensures ReadPacket(Reset(), input, o1).input == ReadPacket(Reset(), input, o2).input
  {
    var r1 := ReadPacket(Reset(), input, o1);
    var r2 := ReadPacket(Reset(), input, o2);
    CompletedFrame(input, o1);
    CompletedFrame(input, o2);
    var t1 := input[..|input| - |r1.input|];
    var t2 := input[..|input| - |r2.input|];
    FrameIsDetermined(t1, t2, input, r1.packet.value, r2.packet.value);
    assert |r1.input| == |r2.input|;
  }

  /** A fresh reader that completes a packet has taken exactly its frame
      from the front of the input. */
  lemma CompletedFrame(input: seq<byte>, outcomes: seq<ReadOutcome>)
    requires ReadPacket(Reset(), input, outcomes).code == 1
    ensures ReadPacket(Reset(), input, outcomes).packet.Some?
    ensures |ReadPacket(Reset(), input, outcomes).input| <= |input|
    ensures ReadPacket(Reset(), input, outcomes).input == input[|input| - |ReadPacket(Reset(), input, outcomes).input|..]
    ensures IsFrameOf(input[..|input| - |ReadPacket(Reset(), input, outcomes).input|], ReadPacket(Reset(), input, outcomes).packet.value)
  {
    var r := ReadPacket(Reset(), input, outcomes);
    ReadPacketSound(Reset(), [], input, outcomes);
    var t := input[..|input| - |r.input|];
    assert [] + t == t;
  }

  /** An oversized packet is never delivered: once the reader is discarding,
      no sequence of read outcomes makes it report a packet. */
  lemma {:induction false} DiscardingNeverCompletes(r: Reader, input: seq<byte>, outcomes: seq<ReadOutcome>)
    requires r.state == Discarding
    ensures ReadPacket(r, input, outcomes).code != 1
    ensures ReadPacket(r, input, outcomes).reader.state == Discarding
    decreases |outcomes|
  {
    if |outcomes| > 0 {
      match outcomes[0]
      case Interrupted => DiscardingNeverCompletes(r, input, outcomes[1..]);
      case WouldBlock =>
      case Failed =>
      case Deliver(limit) =>
        var k := Min(Min(limit, r.want), |input|);
        if k > 0 {
          DiscardingNeverCompletes(Absorb(r, input[..k]).0, input[k..], outcomes[1..]);
        }
    }
  }

  /** When an oversized packet has been skipped entirely, the reader asks the
      socket for nothing, which `read` reports as 0 bytes: the connection is
      then treated as closed rather than resuming with the next packet. */
  lemma DiscardedPacketEndsConnection(r: Reader, consumed: seq<byte>, input: seq<byte>, limit: nat, rest: seq<ReadOutcome>)
    requires Inv(r, consumed) && r.state == Discarding && r.readBytes == r.size
    ensures ReadPacket(r, input, [Deliver(limit)] + rest).code == -2
  {
  }

  /** Conversely a well-formed packet is delivered by a fresh reader: when the
      socket hands over the header and then the content, the reader reports
      exactly the packet that was framed. */
  lemma FrameIsRead(ptype: nat, content: seq<byte>, rest: seq<byte>)
    requires 0 < |content| <= MaxPacketSize && ptype < 0x1_0000_0000
    ensures var res := ReadPacket(Reset(), Frame(ptype, content) + rest,
                                  [Deliver(HeaderSize), Deliver(|content|)]);
      res.code == 1 && res.packet == Some(Packet(ptype, content)) && res.input == rest
  {
    var bytes := Frame(ptype, content) + rest;
    var h := bytes[..8];
    HeaderOfFrameAbsorbed(ptype, content, h);
    var r1 := Absorb(Reset(), h).0;
    var outs := [Deliver(HeaderSize), Deliver(|content|)];
    assert outs[1..] == [Deliver(|content|)];
    DeliverStep(Reset(), bytes, outs, HeaderSize);
    DeliverStep(r1, bytes[8..], outs[1..], |content|);
    assert bytes[8..][..|content|] == content;
    assert bytes[8..][|content|..] == rest;
    assert r1.content + content == content;
  }

  /** A fresh reader given the header of a frame with content waits for
      that content. */
  lemma HeaderOfFrameAbsorbed(ptype: nat, content: seq<byte>, h: seq<byte>)
    requires 0 < |content| <= MaxPacketSize && ptype < 0x1_0000_0000
    requires h == ToBigEndian(|content|, 4) + ToBigEndian(ptype, 4)
    ensures Absorb(Reset(), h).1.None?
    ensures Absorb(Reset(), h).0 == Reader(ReadingContent, 0, |content|, h, |content|, ptype, [])
  {
    assert h[..4] == ToBigEndian(|content|, 4);
    assert h[4..8] == ToBigEndian(ptype, 4);
    assert Pow256(4) == 0x1_0000_0000;
    BigEndianRoundTrip(|content|, 4);
    BigEndianRoundTrip(ptype, 4);
    assert Reset().header + h == h;
  }

  /** A packet with no content is complete as soon as its header is. */
  lemma EmptyPacketEndsAtHeader(ptype: nat, rest: seq<byte>, limit: nat)
    requires ptype < 0x1_0000_0000 && limit >= HeaderSize
    ensures var res := ReadPacket(Reset(), Frame(ptype, []) + rest, [Deliver(limit)]);
      res.code == 1 && res.packet == Some(Packet(ptype, [])) && res.input == rest
  {
    var bytes := Frame(ptype, []) + rest;
    var h := bytes[..8];
    assert h[..4] == ToBigEndian(0, 4);
    assert h[4..8] == ToBigEndian(ptype, 4);
    assert bytes[8..] == rest;
    assert Reset().header + h == h;
    assert Pow256(4) == 0x1_0000_0000;
    BigEndianRoundTrip(0, 4);
    BigEndianRoundTrip(ptype, 4);
  }
}
