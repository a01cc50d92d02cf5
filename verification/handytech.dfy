/** The HandyTech braille driver (Drivers/Braille/HandyTech/braille.c): how
    brl_readPacket frames the bytes the display sends, the extended packet
    writeExtendedPacket builds, the write/acknowledge cycle of setState,
    updateCells and brl_readCommand, and how key bytes become key events.
    The packet and key codes come from the driver's protocol header, which
    is not part of this model; the values used are those of brltty's
    HandyTech header, and the properties rest only on their being distinct. */
module HandyTech {
  import opened Common

  const PktOk: byte := 0xFE
  const PktExtended: byte := 0x79
  const PktNak: byte := 0x7D
  const PktAck: byte := 0x7E
  const Syn: byte := 0x16
  const ExtKey: byte := 0x04
  const ExtConfirmation: byte := 0x07
  const ModelActiveBraille: byte := 0x54

  // ---------------------------------------------------------------------------
  // Framing: brl_readPacket
  // ---------------------------------------------------------------------------

  /** The Active Braille's confirmation of a two-byte extended packet whose
      first data byte is 0x15: it carries one byte more than its length byte
      announces. */
  predicate ConfirmationQuirk(s: seq<byte>)
  {
    && |s| >= 5 && s[1] == ModelActiveBraille && s[2] == 2
    && s[3] == ExtConfirmation && s[4] == 0x15
  }

  /** The length brl_readPacket expects once it has seen the bytes `s`: two
      for OK, one for any other plain packet, and for an extended packet four
      plus its length byte (third byte) once that byte has arrived, and one
      more for the Active Braille quirk. */
  function Expected(s: seq<byte>): nat
    requires |s| > 0
  {
    if s[0] == PktOk then 2
    else if s[0] == PktExtended then
      (if |s| >= 3 then 4 + ByteValue(s[2]) else 4) + (if ConfirmationQuirk(s) then 1 else 0)
    else 1
  }

  /** A packet as the display frames it: its length is the one it announces. */
  predicate Framed(p: seq<byte>)
  {
    |p| > 0 && |p| == Expected(p)
  }

  /** A complete packet brl_readPacket hands on: it fits the buffer, and an
      extended packet ends with SYN. */
  predicate Accepted(p: seq<byte>, size: nat)
    requires |p| > 0
  {
    |p| <= size && (p[0] == PktExtended ==> p[|p| - 1] == Syn)
  }

  /** The loop of brl_readPacket, with `seen` the bytes of the packet begun
      so far. A complete packet that is too long for the buffer, or an
      extended packet without its final SYN, is dropped and framing starts
      again with the next byte; when the input runs out first, the partial
      packet is lost. The bytes looked at in the header (the first five)
      always lie within the buffer. */
  function Scan(seen: seq<byte>, input: seq<byte>, size: nat): Read
    decreases |input|
  {
    if |input| == 0 then Read(None, [])
    else
      var s := seen + [input[0]];
      if |s| == Expected(s) then
        if Accepted(s, size) then Read(Some(s), input[1..])
        else Scan([], input[1..], size)
      else Scan(s, input[1..], size)
  }

  /** brl_readPacket into a buffer of `size` bytes. */
  function ReadPacket(input: seq<byte>, size: nat): Read
    requires size >= 4
  {
    Scan([], input, size)
  }

  /** A framing state: nothing begun, or a packet begun and not yet complete. */
  predicate Pending(seen: seq<byte>)
  {
    |seen| == 0 || |seen| < Expected(seen)
  }

  /** Seeing one more byte of a pending packet either completes a framed
      packet or leaves it pending. */
  lemma PendingStep(seen: seq<byte>, b: byte)
    requires Pending(seen)
    ensures var s := seen + [b];
      |s| == Expected(s) || Pending(s)
    ensures var s := seen + [b];
      |s| == Expected(s) ==> Framed(s)
  {
    var s := seen + [b];
    if |seen| > 0 {
      assert s[0] == seen[0];
      if seen[0] == PktExtended && |seen| >= 3 {
        assert s[2] == seen[2];
      }
      if seen[0] == PktExtended && |seen| >= 5 {
        assert s[..5] == seen[..5];
        assert ConfirmationQuirk(s) == ConfirmationQuirk(seen);
      }
    }
  }

  /** Whatever brl_readPacket returns is a framed, accepted packet, taken
      from the input just before the bytes it leaves. */
  lemma {:induction false} ScanSound(seen: seq<byte>, input: seq<byte>, size: nat)
    requires Pending(seen)
    ensures var r := Scan(seen, input, size);
      r.packet.Some? ==>
        && Framed(r.packet.value) && Accepted(r.packet.value, size)
        && EndsWith(seen + input, r.packet.value, r.rest)
    ensures Scan(seen, input, size).packet.None? ==> Scan(seen, input, size).rest == []
    decreases |input|
  {
    if |input| > 0 {
      var s := seen + [input[0]];
      PendingStep(seen, input[0]);
      assert seen + input == s + input[1..];
      if |s| == Expected(s) {
        if Accepted(s, size) {
          assert EndsWith(s + input[1..], s, input[1..]);
        } else {
          ScanSound([], input[1..], size);
          var r := Scan([], input[1..], size);
          if r.packet.Some? {
            assert [] + input[1..] == input[1..];
            SuffixEndsWith(s, [], input[1..], r.packet.value, r.rest);
          }
        }
      } else {
        ScanSound(s, input[1..], size);
      }
    }
  }

  /** brl_readPacket returns framed, accepted packets only, and gives up only
      when the input is exhausted. */
  lemma ReadPacketSound(input: seq<byte>, size: nat)
    requires size >= 4
    ensures var r := ReadPacket(input, size);
      && (r.packet.Some? ==>
            && Framed(r.packet.value) && Accepted(r.packet.value, size)
            && EndsWith(input, r.packet.value, r.rest))
      && (r.packet.None? ==> r.rest == [])
  {
    ScanSound([], input, size);
    assert [] + input == input;
  }

  /** No proper prefix of a framed packet is complete. */
  lemma PrefixPending(p: seq<byte>, k: nat)
    requires Framed(p) && 0 <= k < |p|
    ensures Pending(p[..k])
  {
    var t := p[..k];
    if k > 0 {
      assert t[0] == p[0];
      if p[0] == PktExtended {
        if k >= 3 {
          assert t[2] == p[2];
        }
        if k >= 5 {
          assert t[..5] == p[..5];
          assert ConfirmationQuirk(t) == ConfirmationQuirk(p);
        }
        if k == 4 {
          assert !ConfirmationQuirk(t);
        }
      }
    }
  }

  /** From any point inside a framed packet, the rest of it completes it. */
  lemma {:induction false} ScanFrame(p: seq<byte>, k: nat, rest: seq<byte>, size: nat)
    requires Framed(p) && 0 <= k < |p|
    ensures Scan(p[..k], p[k..] + rest, size) ==
      if Accepted(p, size) then Read(Some(p), rest) else Scan([], rest, size)
    decreases |p| - k
  {
    var input := p[k..] + rest;
    assert input[0] == p[k];
    assert input[1..] == p[k + 1..] + rest;
    assert p[..k] + [p[k]] == p[..k + 1];
    if k + 1 < |p| {
      PrefixPending(p, k + 1);
      ScanFrame(p, k + 1, rest, size);
    } else {
      assert p[..k + 1] == p;
    }
  }

  /** A framed, accepted packet is read back whole, whatever follows it. */
  lemma ReadPacketComplete(p: seq<byte>, rest: seq<byte>, size: nat)
    requires size >= 4 && Framed(p) && Accepted(p, size)
    ensures ReadPacket(p + rest, size) == Read(Some(p), rest)
  {
    ScanFrame(p, 0, rest, size);
    assert p[..0] == [] && p[0..] == p;
  }

  /** A framed packet that is too long for the buffer, or an extended one
      without its SYN, is skipped, and framing starts again after it. */
  lemma ReadPacketDiscards(q: seq<byte>, rest: seq<byte>, size: nat)
    requires size >= 4 && Framed(q) && !Accepted(q, size)
    ensures ReadPacket(q + rest, size) == ReadPacket(rest, size)
  {
    ScanFrame(q, 0, rest, size);
    assert q[..0] == [] && q[0..] == q;
  }

  // ---------------------------------------------------------------------------
  // writeExtendedPacket
  // ---------------------------------------------------------------------------

  /** The bytes writeExtendedPacket hands to the transport: EXT, the model,
      the length byte (data plus the type byte), the type, the data and SYN.
      The size parameter is an `unsigned char`, so the length byte and the
      count of bytes written, `size + 1` and `size + 5`, wrap at 256. */
  function ExtendedPacket(model: byte, kind: byte, data: seq<byte>): (sent: seq<byte>)
    requires |data| < 256
    ensures |sent| == (|data| + 5) % 256
    ensures |data| <= 250 ==>
      && |sent| == |data| + 5 && sent[..4] == [PktExtended, model, ToByte(|data| + 1), kind]
      && sent[4..|sent| - 1] == data && sent[|sent| - 1] == Syn
  {
    var full := [PktExtended, model, ToByte(|data| + 1), kind] + data + [Syn];
    full[..(|data| + 5) % 256]
  }

  /** writeExtendedPacket succeeds exactly when the transport reports every
      byte written; `written` is its answer for the bytes sent. */
  function WriteExtendedPacket(model: byte, kind: byte, data: seq<byte>, written: seq<byte> -> int): (r: (seq<byte>, bool))
    requires |data| < 256
    ensures r.0 == ExtendedPacket(model, kind, data)
    ensures r.1 <==> written(r.0) == (|data| + 5) % 256
  {
    var sent := ExtendedPacket(model, kind, data);
    (sent, written(sent) == |sent|)
  }

  /** An extended packet of at most 250 data bytes is framed as exactly one
      packet, accepted whenever it fits the buffer and read back with its
      model, type and data, unless it is the one packet the Active Braille
      quirk lengthens. */
  lemma ExtendedRoundTrip(model: byte, kind: byte, data: seq<byte>, rest: seq<byte>, size: nat)
    requires |data| <= 250 && |data| + 5 <= size
    requires !(model == ModelActiveBraille && kind == ExtConfirmation && data == [0x15])
    ensures var p := ExtendedPacket(model, kind, data);
      && Framed(p) && Accepted(p, size)
      && ReadPacket(p + rest, size) == Read(Some(p), rest)
      && p[1] == model && p[3] == kind && p[4..|p| - 1] == data
  {
    var p := ExtendedPacket(model, kind, data);
    assert p[0] == PktExtended && p[1] == model && p[2] == ToByte(|data| + 1) && p[3] == kind;
    ReadPacketComplete(p, rest, size);
  }

  /** With 251 or more data bytes the count wraps: fewer bytes than the
      packet holds go out, and the final SYN is not among them. */
  lemma ExtendedWraps(model: byte, kind: byte, data: seq<byte>)
    requires 251 <= |data| < 256
    ensures var p := ExtendedPacket(model, kind, data);
      |p| == |data| - 251 && |p| < 5
  {
  }

  // ---------------------------------------------------------------------------
  // Key bytes: interpretByte_key and interpretByte_Bookworm
  // ---------------------------------------------------------------------------

  const KeyRouting: nat := 0x20
  const KeyStatus: nat := 0x70
  const KeyRelease: nat := 0x80

  datatype KeySet = RoutingKeys | NavigationKeys

  /** A key event for the key table: the set, the key and whether it is
      pressed (or released). */
  datatype KeyEvent = KeyEvent(keySet: KeySet, key: nat, press: bool)

  /** interpretByte_key: the top bit marks a release; the rest names a
      routing key (0x20 on, one per text cell), a status key (0x70 on, one
      per status cell) or a navigation key (0x01 to 0x1F). Anything else is
      not a key. Enqueueing the event is taken to succeed. */
  function InterpretKey(b: byte, textCells: nat, statusCells: nat): (r: Option<seq<KeyEvent>>)
    ensures r.Some? ==> |r.value| == 1 && r.value[0].press == (ByteValue(b) < KeyRelease)
  {
    InterpretCode(ByteValue(b), textCells, statusCells)
  }

  /** The key event of a key byte's value. */
  function InterpretCode(v: nat, textCells: nat, statusCells: nat): (r: Option<seq<KeyEvent>>)
    ensures r.Some? ==> |r.value| == 1 && r.value[0].press == (v < KeyRelease)
  {
    var release := v >= KeyRelease;
    var k := if release then v - KeyRelease else v;
    if KeyRouting <= k < KeyRouting + textCells then Some([KeyEvent(RoutingKeys, k - KeyRouting, !release)])
    else if KeyStatus <= k < KeyStatus + statusCells then Some([KeyEvent(NavigationKeys, k, !release)])
    else if 0 < k < 0x20 then Some([KeyEvent(NavigationKeys, k, !release)])
    else None
  }

  /** The byte the display sends for a key event. */
  function EncodeKey(e: KeyEvent): byte
  {
    ToByte(KeyCodeOf(e))
  }

  /** The key events a display with these cells can report: a routing key
      per text cell, a status key per status cell that the routing keys do
      not shadow, and the navigation keys 0x01 to 0x1F. */
  predicate Reportable(e: KeyEvent, textCells: nat, statusCells: nat)
  {
    if e.keySet == RoutingKeys then e.key < textCells && KeyRouting + e.key < KeyRelease
    else
      || 0 < e.key < 0x20
      || (KeyStatus <= e.key < KeyStatus + statusCells && e.key < KeyRelease && !(e.key < KeyRouting + textCells))
  }

  /** Every key byte stands for the event it is decoded to. */
  lemma InterpretKeySound(b: byte, textCells: nat, statusCells: nat)
    requires InterpretKey(b, textCells, statusCells).Some?
    ensures var e := InterpretKey(b, textCells, statusCells).value[0];
      Reportable(e, textCells, statusCells) && EncodeKey(e) == b
  {
    ToByteOfValue(b);
  }

  /** Every reportable event is decoded from its byte. */
  lemma InterpretKeyComplete(e: KeyEvent, textCells: nat, statusCells: nat)
    requires Reportable(e, textCells, statusCells)
    ensures InterpretKey(EncodeKey(e), textCells, statusCells) == Some([e])
  {
    var v := KeyCodeOf(e);
    assert v < 256 && EncodeKey(e) == ToByte(v);
    ValueOfToByte(v);
    InterpretCodeComplete(e, textCells, statusCells);
  }

  /** The value of the byte the display sends for a key event. */
  function KeyCodeOf(e: KeyEvent): nat {
    (if e.keySet == RoutingKeys then KeyRouting + e.key else e.key) + (if e.press then 0 else KeyRelease)
  }

  /** Every reportable event is decoded from the value of its byte. */
  lemma InterpretCodeComplete(e: KeyEvent, textCells: nat, statusCells: nat)
    requires Reportable(e, textCells, statusCells)
    ensures KeyCodeOf(e) < 256 && InterpretCode(KeyCodeOf(e), textCells, statusCells) == Some([e])
  {
    var k := if e.keySet == RoutingKeys then KeyRouting + e.key else e.key;
    assert k < KeyRelease;
    if e.keySet == RoutingKeys {
      assert KeyRouting <= k < KeyRouting + textCells;
    } else {
      assert !(KeyRouting <= k < KeyRouting + textCells);
    }
  }

  /** The Bookworm's keys, in the order the driver presses them. */
  const BookwormKeys: seq<nat> := [0x01, 0x08, 0x02, 0x04]

  /** Whether bit `k` (a power of two) is set in `v`. */
  predicate HasBit(v: nat, k: nat)
  {
    k > 0 && (v / k) % 2 == 1
  }

  /** The keys of `keys` whose bits are set in `v`, in order. */
  function PressedKeys(v: nat, keys: seq<nat>): (r: seq<nat>)
    ensures |r| <= |keys|
  {
    if |keys| == 0 then []
    else BitKey(v, keys[0]) + PressedKeys(v, keys[1..])
  }

  function Reverse<T>(s: seq<T>): (r: seq<T>)
    ensures |r| == |s|
    ensures forall i :: 0 <= i < |s| ==> r[i] == s[|s| - 1 - i]
  {
    if |s| == 0 then [] else Reverse(s[1..]) + [s[0]]
  }

  /** The same event, pressing or releasing, for each key in turn. */
  function Events(keys: seq<nat>, press: bool): (r: seq<KeyEvent>)
    ensures |r| == |keys|
    ensures forall i :: 0 <= i < |keys| ==> r[i] == KeyEvent(NavigationKeys, keys[i], press)
  {
    if |keys| == 0 then [] else [KeyEvent(NavigationKeys, keys[0], press)] + Events(keys[1..], press)
  }

  /** interpretByte_Bookworm: a zero byte, or one with a bit outside the four
      keys, is not a key; otherwise every key whose bit is set is pressed, in
      the order Backward, Forward, Escape, Enter, and then released in the
      opposite order. Enqueueing the events is taken to succeed. */
  function InterpretBookworm(b: byte): (r: Option<seq<KeyEvent>>)
    ensures r.Some? <==> 0 < ByteValue(b) < 0x10
  {
    var v := ByteValue(b);
    if v == 0 || v >= 0x10 then None
    else
      var keys := PressedKeys(v, BookwormKeys);
      Some(Events(keys, true) + Events(Reverse(keys), false))
  }

  function Sum(s: seq<nat>): nat
  {
    if |s| == 0 then 0 else s[0] + Sum(s[1..])
  }

  /** The sum of two runs of keys. */
  lemma {:induction false} SumAppend(a: seq<nat>, b: seq<nat>)
    ensures Sum(a + b) == Sum(a) + Sum(b)
    decreases |a|
  {
    if |a| == 0 {
      assert a + b == b;
    } else {
      assert (a + b)[1..] == a[1..] + b;
      SumAppend(a[1..], b);
    }
  }

  /** Bit `k` of `v` as a key, or nothing. */
  function BitKey(v: nat, k: nat): seq<nat>
  {
    if HasBit(v, k) then [k] else []
  }

  lemma PressedBookworm(v: nat)
    ensures PressedKeys(v, BookwormKeys) == BitKey(v, 0x01) + BitKey(v, 0x08) + BitKey(v, 0x02) + BitKey(v, 0x04)
  {
    var k := BookwormKeys;
    assert PressedKeys(v, k[3..]) == BitKey(v, 0x04) by {
      assert k[3..][1..] == [];
    }
    assert PressedKeys(v, k[2..]) == BitKey(v, 0x02) + PressedKeys(v, k[3..]) by {
      assert k[2..][1..] == k[3..];
    }
    assert PressedKeys(v, k[1..]) == BitKey(v, 0x08) + PressedKeys(v, k[2..]) by {
      assert k[1..][1..] == k[2..];
    }
  }

  /** A key adds its own value when its bit is set. */
  lemma BitSum(v: nat, k: nat)
    requires k > 0
    ensures Sum(BitKey(v, k)) == k * ((v / k) % 2)
  {
    if HasBit(v, k) {
      assert Sum([k]) == k + Sum([]);
    }
  }

  /** A number below 16 is the sum of its four bits. */
  lemma BitsOf(v: nat)
    requires v < 0x10
    ensures v == v % 2 + 8 * ((v / 8) % 2) + 2 * ((v / 2) % 2) + 4 * ((v / 4) % 2)
  {
    if v < 8 {
      if v < 4 {
        if v < 2 {} else {}
      } else {
        if v < 6 {} else {}
      }
    } else {
      if v < 12 {
        if v < 10 {} else {}
      } else {
        if v < 14 {} else {}
      }
    }
  }

  /** The keys pressed for a Bookworm byte add up to the byte: each set bit
      is pressed once. */
  lemma BookwormKeysSum(v: nat)
    requires 0 < v < 0x10
    ensures Sum(PressedKeys(v, BookwormKeys)) == v
    ensures |PressedKeys(v, BookwormKeys)| > 0
  {
    var a, b, c, d := BitKey(v, 0x01), BitKey(v, 0x08), BitKey(v, 0x02), BitKey(v, 0x04);
    PressedBookworm(v);
    SumAppend(a + b + c, d);
    SumAppend(a + b, c);
    SumAppend(a, b);
    BitSum(v, 0x01);
    BitSum(v, 0x08);
    BitSum(v, 0x02);
    BitSum(v, 0x04);
    BitsOf(v);
  }

  /** The keys a run of events names. */
  function KeysOf(es: seq<KeyEvent>): (r: seq<nat>)
    ensures |r| == |es| && forall i :: 0 <= i < |es| ==> r[i] == es[i].key
  {
    if |es| == 0 then [] else [es[0].key] + KeysOf(es[1..])
  }

  /** A Bookworm byte presses some keys and then releases the same keys in
      reverse order, and the pressed keys add up to the byte. */
  lemma BookwormPressRelease(b: byte)
    requires 0 < ByteValue(b) < 0x10
    ensures |InterpretBookworm(b).value| % 2 == 0 && |InterpretBookworm(b).value| > 0
    ensures BookwormHalves(InterpretBookworm(b).value)
    ensures Sum(KeysOf(InterpretBookworm(b).value[..|InterpretBookworm(b).value| / 2])) == ByteValue(b)
  {
    var v := ByteValue(b);
    var keys := PressedKeys(v, BookwormKeys);
    assert InterpretBookworm(b).value == Events(keys, true) + Events(Reverse(keys), false);
    BookwormKeysSum(v);
    PressThenRelease(keys);
  }

  /** Pressing keys and then releasing them in reverse order. */
  lemma PressThenRelease(keys: seq<nat>)
    ensures var es := Events(keys, true) + Events(Reverse(keys), false);
      |es| == 2 * |keys| && BookwormHalves(es) && KeysOf(es[..|keys|]) == keys
  {
    var es := Events(keys, true) + Events(Reverse(keys), false);
    assert es[..|keys|] == Events(keys, true);
    PressedKeysOf(keys);
    HalvesMirror(keys, es);
  }

  lemma PressedKeysOf(keys: seq<nat>)
    ensures KeysOf(Events(keys, true)) == keys
  {
  }

  lemma HalvesMirror(keys: seq<nat>, es: seq<KeyEvent>)
    requires es == Events(keys, true) + Events(Reverse(keys), false)
    ensures BookwormHalves(es)
  {
    var n := |keys|;
    var presses, releases := Events(keys, true), Events(Reverse(keys), false);
    assert |es| / 2 == n;
    forall i | 0 <= i < n
      ensures es[i].press
    {
      assert es[i] == presses[i];
    }
    forall i | n <= i < |es|
      ensures !es[i].press && es[i].key == es[|es| - 1 - i].key
    {
      var j := |es| - 1 - i;
      assert es[i] == releases[i - n];
      assert releases[i - n].key == Reverse(keys)[i - n] == keys[j];
      assert es[j] == presses[j];
    }
  }

  /** The first half presses, the second half releases the same keys in
      reverse order. */
  predicate BookwormHalves(es: seq<KeyEvent>)
  {
    var n := |es| / 2;
    && (forall i :: 0 <= i < n ==> es[i].press)
    && (forall i :: n <= i < |es| ==> !es[i].press && es[i].key == es[|es| - 1 - i].key)
  }
}
