/** Key codes as the BrlAPI server handles them: the 64-bit client key code
    of a driver key event, its encoding in a KEY packet, the key-range
    packets clients use to choose the keys they receive, and the default set
    of accepted keys a connection gets when it takes a tty. */
module BrlapiKeys {
  import opened Common

  /** A 64-bit BrlAPI client key code. */
  type KeyCode = bv64

  // ---------------------------------------------------------------------------
  // The client key code of a driver key event.

  /** The code of key `key` of key set `keySet`, pressed (`press` odd) or
      released: the set in bits 8..15, the key in bits 0..7 and the press
      flag in bit 63.  The C code shifts `press` left by 63 bits in a 64-bit
      type, so only its lowest bit survives. */
  function KeyEventCode(keySet: byte, key: byte, press: int): (code: KeyCode)
    ensures (code >> 8) & 0xFF == keySet as bv64
    ensures code & 0xFF == key as bv64
    ensures (code >> 63 == 1) <==> press % 2 == 1
    ensures code & 0x7FFF_FFFF_FFFF_0000 == 0
  {
    ((keySet as bv64) << 8) | (key as bv64) | ((press % 2) as bv64 << 63)
  }

  /** The KEY packet's content: the code's high and low 32-bit halves, each
      in network byte order. */
  function KeyPacketContent(code: KeyCode): (bytes: seq<byte>)
    ensures |bytes| == 8
  {
    ToBigEndian(code as nat / 0x1_0000_0000, 4) + ToBigEndian(code as nat % 0x1_0000_0000, 4)
  }

  /** A key code as the key-range handler reads it: a high and a low 32-bit
      word, each in network byte order, the high one shifted left by 32 bits
      and or-ed with the low one (which, the low word being below 2^32, is
      the same as adding them). */
  function KeyFromWords(bytes: seq<byte>): KeyCode
    requires |bytes| == 8
  {
    BigEndianBound(bytes[..4]);
    BigEndianBound(bytes[4..]);
    assert Pow256(4) == 0x1_0000_0000;
    (BigEndian(bytes[..4]) * 0x1_0000_0000 + BigEndian(bytes[4..])) as bv64
  }

  /** A key written to a client reads back as the same key. */
  lemma KeyPacketRoundTrip(code: KeyCode)
    ensures KeyFromWords(KeyPacketContent(code)) == code
  {
    WordsRoundTrip(code as nat);
  }

  lemma WordsRoundTrip(x: nat)
    requires x < 0x1_0000_0000_0000_0000
    ensures var bytes := ToBigEndian(x / 0x1_0000_0000, 4) + ToBigEndian(x % 0x1_0000_0000, 4);
      BigEndian(bytes[..4]) * 0x1_0000_0000 + BigEndian(bytes[4..]) == x
  {
    var hi := x / 0x1_0000_0000;
    var lo := x % 0x1_0000_0000;
    var bytes := ToBigEndian(hi, 4) + ToBigEndian(lo, 4);
    assert Pow256(4) == 0x1_0000_0000;
    assert bytes[..4] == ToBigEndian(hi, 4);
    assert bytes[4..] == ToBigEndian(lo, 4);
    BigEndianRoundTrip(hi, 4);
    BigEndianRoundTrip(lo, 4);
  }

  // ---------------------------------------------------------------------------
  // Key-range lists.

  /** One edit of a connection's accepted-key list: accept or ignore every
      code from `first` to `last`. */
  datatype RangeEdit = Accept(first: KeyCode, last: KeyCode) | Ignore(first: KeyCode, last: KeyCode)

  /** A connection's accepted keys, as the edits applied to an initially
      empty list. */
  type KeyRanges = seq<RangeEdit>

  predicate InRange(e: RangeEdit, code: KeyCode) {
    e.first <= code <= e.last
  }

  /** Whether `code` is accepted after the edits: the most recent edit
      covering it accepts it (union for an accept, difference for an ignore);
      a code no edit covers is not accepted. */
  predicate Accepts(ranges: KeyRanges, code: KeyCode) {
    exists i :: 0 <= i < |ranges| && LastCovering(ranges, code, i) && ranges[i].Accept?
  }

  /** Edit `i` covers `code` and no later edit does. */
  predicate LastCovering(ranges: KeyRanges, code: KeyCode, i: int)
    requires 0 <= i < |ranges|
  {
    InRange(ranges[i], code) && forall j :: i < j < |ranges| ==> !InRange(ranges[j], code)
  }

  /** Appending an edit: it decides the codes it covers and leaves the others. */
  lemma AcceptsAppend(ranges: KeyRanges, e: RangeEdit, code: KeyCode)
    ensures Accepts(ranges + [e], code) == if InRange(e, code) then e.Accept? else Accepts(ranges, code)
  {
    var rs := ranges + [e];
    assert forall j :: 0 <= j < |ranges| ==> rs[j] == ranges[j];
    if InRange(e, code) {
      assert LastCovering(rs, code, |ranges|);
      if Accepts(rs, code) {
        var i :| 0 <= i < |rs| && LastCovering(rs, code, i) && rs[i].Accept?;
        assert i == |ranges|;
      }
    } else {
      if Accepts(rs, code) {
        var i :| 0 <= i < |rs| && LastCovering(rs, code, i) && rs[i].Accept?;
        assert i < |ranges| && LastCovering(ranges, code, i);
      }
      if Accepts(ranges, code) {
        var i :| 0 <= i < |ranges| && LastCovering(ranges, code, i) && ranges[i].Accept?;
        assert LastCovering(rs, code, i);
      }
    }
  }

  // ---------------------------------------------------------------------------
  // Key-range packets.

  /** Bytes per range in an ACCEPTKEYRANGES/IGNOREKEYRANGES packet: two
      64-bit codes. */
  const RangeBytes: nat := 16

  /** The ranges a key-range packet carries, or None when it is rejected as
      an invalid packet.  The size test in the C code is written
      `!(size%2*sizeof(brlapi_keyCode_t))`, which by C precedence rejects
      only odd sizes; a size that is even but not a multiple of 16 is
      accepted and its trailing bytes are ignored. */
  function ParseKeyRanges(content: seq<byte>): (r: Option<seq<(KeyCode, KeyCode)>>)
    ensures r.None? <==> |content| % 2 == 1
    ensures r.Some? ==> |r.value| == |content| / RangeBytes
  {
    if |content| % 2 == 1 then None else Some(DecodeRanges(content))
  }

  /** The ranges in the leading multiple of 16 bytes, in order. */
  function DecodeRanges(content: seq<byte>): (r: seq<(KeyCode, KeyCode)>)
    ensures |r| == |content| / RangeBytes
    decreases |content|
  {
    if |content| < RangeBytes then []
    else [(KeyFromWords(content[..8]), KeyFromWords(content[8..16]))] + DecodeRanges(content[RangeBytes..])
  }

  /** The encoding a client uses for a list of ranges. */
  function EncodeRanges(ranges: seq<(KeyCode, KeyCode)>): (bytes: seq<byte>)
    ensures |bytes| == RangeBytes * |ranges|
  {
    if |ranges| == 0 then []
    else KeyPacketContent(ranges[0].0) + KeyPacketContent(ranges[0].1) + EncodeRanges(ranges[1..])
  }

  /** Ranges encoded by a client are decoded to the same ranges, and any
      trailing bytes short of a whole range are ignored. */
  lemma {:induction false} KeyRangesRoundTrip(ranges: seq<(KeyCode, KeyCode)>, tail: seq<byte>)
    requires |tail| < RangeBytes && |tail| % 2 == 0
    ensures ParseKeyRanges(EncodeRanges(ranges) + tail) == Some(ranges)
  {
    DecodeRoundTrip(ranges, tail);
  }

  lemma {:induction false} DecodeRoundTrip(ranges: seq<(KeyCode, KeyCode)>, tail: seq<byte>)
    requires |tail| < RangeBytes
    ensures DecodeRanges(EncodeRanges(ranges) + tail) == ranges
  {
    if |ranges| > 0 {
      var bytes := EncodeRanges(ranges) + tail;
      var rest := EncodeRanges(ranges[1..]);
      assert bytes == KeyPacketContent(ranges[0].0) + KeyPacketContent(ranges[0].1) + (rest + tail);
      assert bytes[..8] == KeyPacketContent(ranges[0].0);
      assert bytes[8..16] == KeyPacketContent(ranges[0].1);
      assert bytes[RangeBytes..] == rest + tail;
      KeyPacketRoundTrip(ranges[0].0);
      KeyPacketRoundTrip(ranges[0].1);
      DecodeRoundTrip(ranges[1..], tail);
    }
  }

  /** The edits a key-range packet applies: one accept (or ignore) per range. */
  function RangeEdits(pairs: seq<(KeyCode, KeyCode)>, accept: bool): (edits: KeyRanges)
    ensures |edits| == |pairs|
    ensures forall i :: 0 <= i < |pairs| ==>
              edits[i].first == pairs[i].0 && edits[i].last == pairs[i].1 && edits[i].Accept? == accept
  {
    if |pairs| == 0 then []
    else
      var e := if accept then Accept(pairs[0].0, pairs[0].1) else Ignore(pairs[0].0, pairs[0].1);
      [e] + RangeEdits(pairs[1..], accept)
  }

  // ---------------------------------------------------------------------------
  // Default accepted keys.

  /** Key code type prefix of a command (BRLAPI_KEY_TYPE_CMD). */
  const KeyTypeCommand: KeyCode := 0x2000_0000

  // Client key codes of the commands the server handles itself.  The numbers
  // stand in for the BRLAPI_KEY_CMD_* constants of the BrlAPI constants
  // header, which is not part of this model: only their being distinct
  // command codes matters here.
  const CmdNoop: KeyCode := KeyTypeCommand | 0
  const CmdOffline: KeyCode := KeyTypeCommand | 0x0001_0000
  const CmdRestartBraille: KeyCode := KeyTypeCommand | 0x0002_0000
  const CmdRestartSpeech: KeyCode := KeyTypeCommand | 0x0003_0000
  const CmdSwitchVt: KeyCode := KeyTypeCommand | 0x0004_0000
  const CmdSwitchVtPrev: KeyCode := KeyTypeCommand | 0x0005_0000
  const CmdSwitchVtNext: KeyCode := KeyTypeCommand | 0x0006_0000
  const CmdPassXt: KeyCode := KeyTypeCommand | 0x0007_0000
  const CmdPassAt: KeyCode := KeyTypeCommand | 0x0008_0000
  const CmdPassPs2: KeyCode := KeyTypeCommand | 0x0009_0000

  /** The driver-independent commands a client in command mode does not get
      by default, so that the user keeps them: going offline, no-op,
      restarting the braille driver or speech, switching virtual terminals,
      and passing raw keyboard scan codes. */
  const ReservedCommands: seq<KeyCode> :=
    [CmdOffline, CmdNoop, CmdRestartBraille, CmdRestartSpeech, CmdSwitchVt,
     CmdSwitchVtPrev, CmdSwitchVtNext, CmdPassXt, CmdPassAt, CmdPassPs2]

  /** The kinds of range the server asks the key-table code to widen a code
      into: every key, or one command with all its arguments. */
  datatype RangeType = AllKeys | OneCommand

  /** The key-table lookup that widens a code into a range mask
      (brlapiserver_getKeyrangeMask); None is its failure. */
  type MaskLookup = (RangeType, KeyCode) -> Option<KeyCode>

  /** How a connection in tty mode wants its keys: as commands, or as raw
      driver key codes. */
  datatype KeyMode = Commands | KeyCodes

  /** Result of setting up the default accepted keys: `ok` is false when a
      mask lookup failed; the edits made before the failure stay in
      `ranges`, as they do in the C list. */
  datatype InitResult = InitResult(ok: bool, ranges: KeyRanges)

  /** Adds the default edits for `mode` to a connection's key ranges
      (initializeAcceptedKeys).  In key-code mode nothing is accepted by
      default; in command mode everything is except the reserved commands. */
  function InitializeAcceptedKeys(ranges: KeyRanges, mode: KeyMode, mask: MaskLookup): (r: InitResult)
    ensures mode == KeyCodes ==> r == InitResult(true, ranges)
    ensures mode == Commands ==> (r.ok <==> mask(AllKeys, 0).Some? && forall c :: c in ReservedCommands ==> mask(OneCommand, c).Some?)
    ensures ranges <= r.ranges
    ensures mode == Commands && r.ok ==>
      r.ranges == ranges + [Accept(0, mask(AllKeys, 0).value)] + ReservedEdits(ReservedCommands, mask)
  {
    if mode == KeyCodes then InitResult(true, ranges)
    else match mask(AllKeys, 0)
      case None => InitResult(false, ranges)
      case Some(m) =>
        assert 0 | m == m;
        var r := IgnoreReserved(ranges + [Accept(0, m)], ReservedCommands, mask);
        assert ranges <= ranges + [Accept(0, m)];
        r
  }

  function IgnoreReserved(ranges: KeyRanges, cmds: seq<KeyCode>, mask: MaskLookup): (r: InitResult)
    ensures r.ok <==> forall c :: c in cmds ==> mask(OneCommand, c).Some?
    ensures ranges <= r.ranges
    ensures r.ok ==> r.ranges == ranges + ReservedEdits(cmds, mask)
    decreases |cmds|
  {
    if |cmds| == 0 then InitResult(true, ranges)
    else
      match CommandRange(cmds[0], mask)
      case None => InitResult(false, ranges)
      case Some(e) =>
        var r := IgnoreReserved(ranges + [e], cmds[1..], mask);
        assert forall c :: c in cmds ==> c == cmds[0] || c in cmds[1..];
        assert ranges + [e] + ReservedEdits(cmds[1..], mask) == ranges + ReservedEdits(cmds, mask);
        r
  }

  /** The ignore edits for the reserved commands whose masks all resolve. */
  function ReservedEdits(cmds: seq<KeyCode>, mask: MaskLookup): KeyRanges {
    if |cmds| == 0 then []
    else
      match CommandRange(cmds[0], mask)
      case None => []
      case Some(e) => [e] + ReservedEdits(cmds[1..], mask)
  }

  /** The ignore edit for reserved command `c` with all its arguments: from
      its code to its code with every mask bit set. */
  function CommandRange(c: KeyCode, mask: MaskLookup): (r: Option<RangeEdit>)
    ensures r.Some? <==> mask(OneCommand, c).Some?
    ensures r.Some? ==> r.value.Ignore? && r.value.first == c
  {
    var first := c;
    match mask(OneCommand, first)
    case None => None
    case Some(m) => Some(Ignore(first, first | m))
  }

  /** `code` is reserved command `c` with some argument. */
  predicate InCommandRange(code: KeyCode, c: KeyCode, mask: MaskLookup) {
    CommandRange(c, mask).Some? && InRange(CommandRange(c, mask).value, code)
  }

  /** `code` is one of the commands in `cmds`, with any argument. */
  predicate IsReserved(code: KeyCode, cmds: seq<KeyCode>, mask: MaskLookup) {
    exists c :: c in cmds && InCommandRange(code, c, mask)
  }

  /** After a successful command-mode initialisation, a code is accepted
      exactly when it is none of the reserved commands and it is accepted
      once every code within the all-keys mask has been added to the ranges
      the connection had (by `AcceptsAppend`: it lies within the mask or was
      accepted before).  For a fresh connection that is everything within
      the mask except the reserved commands. */
  lemma DefaultCommandKeys(start: KeyRanges, mask: MaskLookup, code: KeyCode)
    requires InitializeAcceptedKeys(start, Commands, mask).ok
    ensures Accepts(InitializeAcceptedKeys(start, Commands, mask).ranges, code)
        <==> Accepts(start + [Accept(0, mask(AllKeys, 0).value)], code)
             && !IsReserved(code, ReservedCommands, mask)
  {
    var m := mask(AllKeys, 0).value;
    IgnoreReservedAccepts(start + [Accept(0, m)], ReservedCommands, mask, code);
  }

  lemma {:induction false} IgnoreReservedAccepts(ranges: KeyRanges, cmds: seq<KeyCode>, mask: MaskLookup, code: KeyCode)
    requires forall c :: c in cmds ==> mask(OneCommand, c).Some?
    ensures Accepts(ranges + ReservedEdits(cmds, mask), code)
        <==> Accepts(ranges, code) && !IsReserved(code, cmds, mask)
    decreases |cmds|
  {
    if |cmds| == 0 {
      assert ranges + [] == ranges;
    } else {
      var c0 := cmds[0];
      var rest := cmds[1..];
      var e := CommandRange(c0, mask).value;
      var r1 := ranges + [e];
      assert ranges + ReservedEdits(cmds, mask) == r1 + ReservedEdits(rest, mask);
      assert forall c :: c in rest ==> c in cmds;
      IgnoreReservedAccepts(r1, rest, mask, code);
      AcceptsAppend(ranges, e, code);
      assert InRange(e, code) == InCommandRange(code, c0, mask);
      ReservedSplit(code, cmds, mask);
    }
  }

  lemma ReservedSplit(code: KeyCode, cmds: seq<KeyCode>, mask: MaskLookup)
    requires |cmds| > 0
    ensures IsReserved(code, cmds, mask) <==> InCommandRange(code, cmds[0], mask) || IsReserved(code, cmds[1..], mask)
  {
    assert forall c :: c in cmds <==> c == cmds[0] || c in cmds[1..];
  }
}
