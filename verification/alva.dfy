/** The Alva braille driver (Drivers/Braille/Alva/braille.c): the packet
    recognisers of its three protocols, the cell packets it writes, how it
    lays out status and text cells on the display, and how it maps routing
    keys to text columns. The byte source is a finite sequence; when it runs
    out in the middle of a packet the recogniser returns 0 (no packet) and
    the partial packet is lost, as it is in the C code. */
module Alva {
  import opened Common

  const Esc: byte := 0x1B
  const Cr: byte := 0x0D

  /** ESC 'I' 'D' '=': the start of an identity packet. */
  const BrlId: seq<byte> := [0x1B, 0x49, 0x44, 0x3D]

  // ---------------------------------------------------------------------------
  // Protocol 1: readPacket1
  // ---------------------------------------------------------------------------

  /** The length a first byte announces, 0 for a byte that starts nothing
      and is skipped: 0x7F a cell-status packet (4 bytes until its count is
      known), another 0x7n a key, ESC an identity packet, 0x00 a pair of
      zeros. */
  function StartLength1(b: byte): nat
  {
    if b == 0x7F then 4
    else if b & 0xF0 == 0x70 then 2
    else if b == Esc then 5
    else if b == 0 then 2
    else 0
  }

  /** A byte that does not fit the packet begun so far: a 0x7F packet wants
      0x7E at every even offset, an identity packet wants "ID=", and a zero
      packet wants a zero. */
  predicate Unexpected1(packet: seq<byte>, b: byte)
    requires |packet| > 0
  {
    if packet[0] == 0x7F then |packet| % 2 == 0 && b != 0x7E
    else if packet[0] == Esc then |packet| < 4 && b != BrlId[|packet|]
    else if packet[0] == 0 then b != 0
    else false
  }

  /** Taking one byte: it continues the packet, or, when there is none or
      the byte does not fit, it is looked at again as a first byte. The
      fourth byte of a 0x7F packet fixes its length at twice its value plus
      four. */
  function Take1(packet: seq<byte>, length: nat, b: byte): (seq<byte>, nat)
  {
    if |packet| == 0 || Unexpected1(packet, b) then
      (if StartLength1(b) == 0 then ([], 0) else ([b], StartLength1(b)))
    else
      (packet + [b], if packet[0] == 0x7F && |packet| == 3 then 2 * ByteValue(b) + 4 else length)
  }

  /** The loop of readPacket1 from a framing state. A complete packet longer
      than the buffer, or one starting with 0x00, is dropped. */
  function Scan1(packet: seq<byte>, length: nat, input: seq<byte>, size: nat): Read
    decreases |input|
  {
    if |input| == 0 then Read(None, [])
    else
      var next := Take1(packet, length, input[0]);
      if |next.0| > 0 && |next.0| == next.1 then
        if |next.0| > size || next.0[0] == 0 then Scan1([], 0, input[1..], size)
        else Read(Some(next.0), input[1..])
      else Scan1(next.0, next.1, input[1..], size)
  }

  /** readPacket1 with a buffer of `size` bytes. */
  function ReadPacket1(input: seq<byte>, size: nat): Read
  {
    Scan1([], 0, input, size)
  }

  /** A protocol 1 packet as the display sends it. */
  predicate WellFormed1(p: seq<byte>)
  {
    && |p| >= 2
    && (p[0] == 0x7F ==>
          && |p| >= 4 && |p| == 2 * ByteValue(p[3]) + 4
          && forall j :: 2 <= j < |p| && j % 2 == 0 ==> p[j] == 0x7E)
    && (p[0] != 0x7F && p[0] & 0xF0 == 0x70 ==> |p| == 2)
    && (p[0] == Esc ==> |p| == 5 && p[..4] == BrlId)
    && (p[0] == 0 ==> |p| == 2 && p[1] == 0)
    && StartLength1(p[0]) > 0
  }

  /** The length a packet begun with these bytes will have. */
  function ExpectedLength1(packet: seq<byte>): nat
    requires |packet| > 0
  {
    if packet[0] == 0x7F && |packet| >= 4 then 2 * ByteValue(packet[3]) + 4
    else StartLength1(packet[0])
  }

  /** The bytes of a packet begun so far fit its kind. */
  predicate FitsSoFar1(packet: seq<byte>)
    requires |packet| > 0
  {
    && (packet[0] == 0x7F ==> forall j :: 2 <= j < |packet| && j % 2 == 0 ==> packet[j] == 0x7E)
    && (packet[0] == Esc ==> forall j :: 1 <= j < |packet| && j < 4 ==> packet[j] == BrlId[j])
    && (packet[0] == 0 ==> forall j :: 1 <= j < |packet| ==> packet[j] == 0)
  }

  /** A framing state readPacket1 can be in: nothing begun, or a packet
      begun that fits its kind and is not yet complete. */
  predicate Framing1(packet: seq<byte>, length: nat)
  {
    if |packet| == 0 then length == 0
    else
      && StartLength1(packet[0]) > 0 && length == ExpectedLength1(packet)
      && |packet| < length && FitsSoFar1(packet)
  }

  /** A byte that continues a packet keeps what has been seen fitting. */
  lemma ContinueFits1(packet: seq<byte>, length: nat, b: byte)
    requires |packet| > 0 && Framing1(packet, length) && !Unexpected1(packet, b)
    ensures var q := packet + [b];
      && FitsSoFar1(q)
      && Take1(packet, length, b) == (q, ExpectedLength1(q))
  {
    var q := packet + [b];
    assert q[..|packet|] == packet;
    assert q[|packet|] == b;
    if packet[0] == 0x7F && |packet| >= 4 {
      assert q[3] == packet[3];
    }
  }

  /** Taking a byte leads from a framing state to a framing state or to a
      complete, well-formed packet that ends with that byte. */
  lemma TakeKeeps1(packet: seq<byte>, length: nat, b: byte)
    requires Framing1(packet, length)
    ensures var next := Take1(packet, length, b);
      && (|next.0| > 0 && |next.0| == next.1 ==> WellFormed1(next.0))
      && (!(|next.0| > 0 && |next.0| == next.1) ==> Framing1(next.0, next.1))
      && (next.0 == [] || next.0 == [b] || next.0 == packet + [b])
  {
    if |packet| > 0 && !Unexpected1(packet, b) {
      ContinueFits1(packet, length, b);
      var q := packet + [b];
      if |q| == ExpectedLength1(q) {
        assert q[..|packet|] == packet;
        if q[0] == Esc {
          assert q[..4] == BrlId;
        }
      }
    }
  }

  /** Whatever readPacket1 returns is a well-formed packet that fits the
      buffer and does not start with 0x00, taken from the input just before
      the bytes it leaves. */
  lemma {:induction false} Scan1Sound(packet: seq<byte>, length: nat, input: seq<byte>, size: nat)
    requires Framing1(packet, length)
    ensures var r := Scan1(packet, length, input, size);
      r.packet.Some? ==>
        && WellFormed1(r.packet.value) && |r.packet.value| <= size && r.packet.value[0] != 0
        && EndsWith(packet + input, r.packet.value, r.rest)
    decreases |input|
  {
    if |input| > 0 {
      var b := input[0];
      var next := Take1(packet, length, b);
      TakeKeeps1(packet, length, b);
      var seen := packet + [b];
      assert packet + input == seen + input[1..];
      assert seen[|seen| - |next.0|..] == next.0;
      if |next.0| > 0 && |next.0| == next.1 {
        if |next.0| > size || next.0[0] == 0 {
          Scan1Sound([], 0, input[1..], size);
          var r := Scan1([], 0, input[1..], size);
          if r.packet.Some? {
            assert [] + input[1..] == input[1..];
            SuffixEndsWith(seen, [], input[1..], r.packet.value, r.rest);
          }
        } else {
          assert EndsWith(next.0 + input[1..], next.0, input[1..]);
          SuffixEndsWith(seen, next.0, input[1..], next.0, input[1..]);
        }
      } else {
        Scan1Sound(next.0, next.1, input[1..], size);
        var r := Scan1(next.0, next.1, input[1..], size);
        if r.packet.Some? {
          SuffixEndsWith(seen, next.0, input[1..], r.packet.value, r.rest);
        }
      }
    }
  }

  /** readPacket1 returns well-formed packets only. */
  lemma ReadPacket1Sound(input: seq<byte>, size: nat)
    ensures var r := ReadPacket1(input, size);
      r.packet.Some? ==>
        && WellFormed1(r.packet.value) && |r.packet.value| <= size && r.packet.value[0] != 0
        && EndsWith(input, r.packet.value, r.rest)
  {
    Scan1Sound([], 0, input, size);
    assert [] + input == input;
  }

  /** Inside a well-formed packet every byte continues it. */
  lemma TakeInside1(p: seq<byte>, i: nat)
    requires WellFormed1(p) && 1 <= i < |p|
    ensures Take1(p[..i], ExpectedLength1(p[..i]), p[i]) == (p[..i + 1], ExpectedLength1(p[..i + 1]))
    ensures i + 1 < |p| ==> |p[..i + 1]| < ExpectedLength1(p[..i + 1])
    ensures i + 1 == |p| ==> |p[..i + 1]| == ExpectedLength1(p[..i + 1])
  {
    var packet := p[..i];
    assert packet + [p[i]] == p[..i + 1];
    assert packet[0] == p[0] && p[..i + 1][0] == p[0];
    if p[0] == 0x7F && i >= 3 {
      assert p[..i + 1][3] == p[3];
    }
    if p[0] == 0x7F && i >= 4 {
      assert packet[3] == p[3];
    }
    if p[0] == Esc && i < 4 {
      assert p[..4] == BrlId;
      assert p[i] == BrlId[i];
    }
  }

  /** Feeding the rest of a well-formed packet from any point after its
      first byte completes it. */
  lemma {:induction false} Scan1Completes(p: seq<byte>, i: nat, rest: seq<byte>, size: nat)
    requires WellFormed1(p) && p[0] != 0 && |p| <= size
    requires 1 <= i < |p|
    ensures Scan1(p[..i], ExpectedLength1(p[..i]), p[i..] + rest, size) == Read(Some(p), rest)
    decreases |p| - i
  {
    var input := p[i..] + rest;
    assert input[0] == p[i];
    assert input[1..] == p[i + 1..] + rest;
    TakeInside1(p, i);
    if i + 1 < |p| {
      Scan1Completes(p, i + 1, rest, size);
    } else {
      assert p[..i + 1] == p;
    }
  }

  /** A well-formed packet that fits the buffer is read back whole. */
  lemma ReadPacket1Complete(p: seq<byte>, rest: seq<byte>, size: nat)
    requires WellFormed1(p) && p[0] != 0 && |p| <= size
    ensures ReadPacket1(p + rest, size) == Read(Some(p), rest)
  {
    var input := p + rest;
    assert input[0] == p[0] && input[1..] == p[1..] + rest;
    assert p[..1] == [p[0]];
    assert Take1([], 0, p[0]) == (p[..1], ExpectedLength1(p[..1]));
    Scan1Completes(p, 1, rest, size);
  }

  /** Bytes that start nothing are skipped. */
  lemma {:induction false} SkipNoise1(noise: seq<byte>, input: seq<byte>, size: nat)
    requires forall j :: 0 <= j < |noise| ==> StartLength1(noise[j]) == 0
    ensures ReadPacket1(noise + input, size) == ReadPacket1(input, size)
    decreases |noise|
  {
    if |noise| > 0 {
      assert (noise + input)[0] == noise[0];
      assert (noise + input)[1..] == noise[1..] + input;
      assert Take1([], 0, noise[0]) == ([], 0);
      assert forall j :: 0 <= j < |noise| - 1 ==> noise[1..][j] == noise[j + 1];
      SkipNoise1(noise[1..], input, size);
      assert Scan1([], 0, noise + input, size) == Scan1([], 0, noise[1..] + input, size);
    } else {
      assert noise + input == input;
    }
  }

  // ---------------------------------------------------------------------------
  // Protocol 2: readPacket2s (serial) and readPacket2u (USB)
  // ---------------------------------------------------------------------------

  datatype Protocol2 = Serial2 | Usb2

  /** Whether a byte starts a packet: ESC on serial, 0x01 or 0x04 on USB. */
  predicate Starts2(protocol: Protocol2, b: byte)
  {
    match protocol
    case Serial2 => b == Esc
    case Usb2 => b == 0x01 || b == 0x04
  }

  /** The length of a packet from its first two bytes. On serial the second
      byte names the kind: '?', 'E' and 'r' take 3 bytes, 'K' and 'T' 4,
      'V' 13, 'h' 10, anything else 2. On USB 0x01 takes 9 and 0x04 3. */
  function Length2(protocol: Protocol2, first: byte, second: byte): (n: nat)
    ensures n >= 2
  {
    match protocol
    case Serial2 =>
      if second == 0x3F || second == 0x45 || second == 0x72 then 3
      else if second == 0x4B || second == 0x54 then 4
      else if second == 0x56 then 13
      else if second == 0x68 then 10
      else 2
    case Usb2 => if first == 0x01 then 9 else 3
  }

  /** readPacket2s and readPacket2u: bytes that start nothing are skipped; a
      packet longer than the buffer is consumed and dropped. */
  function ReadPacket2(protocol: Protocol2, input: seq<byte>, size: nat): Read
    decreases |input|
  {
    if |input| == 0 then Read(None, [])
    else if !Starts2(protocol, input[0]) then ReadPacket2(protocol, input[1..], size)
    else if |input| < 2 then Read(None, [])
    else
      var n := Length2(protocol, input[0], input[1]);
      if |input| < n then Read(None, [])
      else if n > size then ReadPacket2(protocol, input[n..], size)
      else Read(Some(input[..n]), input[n..])
  }

  /** A protocol 2 packet as the display sends it. */
  predicate WellFormed2(protocol: Protocol2, p: seq<byte>)
  {
    |p| >= 2 && Starts2(protocol, p[0]) && |p| == Length2(protocol, p[0], p[1])
  }

  /** Whatever readPacket2 returns is a well-formed packet that fits the
      buffer, taken from the input just before the bytes it leaves. */
  lemma {:induction false} ReadPacket2Sound(protocol: Protocol2, input: seq<byte>, size: nat)
    ensures var r := ReadPacket2(protocol, input, size);
      r.packet.Some? ==>
        && WellFormed2(protocol, r.packet.value) && |r.packet.value| <= size
        && EndsWith(input, r.packet.value, r.rest)
    decreases |input|
  {
    if |input| > 0 {
      if !Starts2(protocol, input[0]) {
        ReadPacket2Sound(protocol, input[1..], size);
        var r := ReadPacket2(protocol, input[1..], size);
        if r.packet.Some? {
          SkipEndsWith(input, 1, r.packet.value, r.rest);
        }
      } else if |input| >= 2 {
        var n := Length2(protocol, input[0], input[1]);
        if |input| >= n {
          if n > size {
            ReadPacket2Sound(protocol, input[n..], size);
            var r := ReadPacket2(protocol, input[n..], size);
            if r.packet.Some? {
              SkipEndsWith(input, n, r.packet.value, r.rest);
            }
          } else {
            TakeEndsWith(input, n);
          }
        }
      }
    }
  }

  /** A well-formed packet that fits the buffer is read back whole, after
      any bytes that start nothing. */
  lemma {:induction false} ReadPacket2Complete(protocol: Protocol2, noise: seq<byte>, p: seq<byte>, rest: seq<byte>, size: nat)
    requires forall j :: 0 <= j < |noise| ==> !Starts2(protocol, noise[j])
    requires WellFormed2(protocol, p) && |p| <= size
    ensures ReadPacket2(protocol, noise + p + rest, size) == Read(Some(p), rest)
    decreases |noise|
  {
    var input := noise + p + rest;
    if |noise| > 0 {
      assert input[0] == noise[0];
      assert input[1..] == noise[1..] + p + rest;
      assert forall j :: 0 <= j < |noise| - 1 ==> noise[1..][j] == noise[j + 1];
      ReadPacket2Complete(protocol, noise[1..], p, rest, size);
    } else {
      assert input == p + rest;
      assert input[..|p|] == p && input[|p|..] == rest;
    }
  }

  // ---------------------------------------------------------------------------
  // Writing cells
  // ---------------------------------------------------------------------------

  /** writeBraille1: CR ESC 'B', the first cell's column, the cell count,
      the cells and CR; the column and count are stored in one byte each. */
  function WriteBraille1(cells: seq<byte>, start: nat): (r: seq<byte>)
    ensures |r| == |cells| + 6
  {
    [Cr, Esc, 0x42, ToByte(start), ToByte(|cells|)] + cells + [Cr]
  }

  /** writeBraille2s: ESC 0x42, the column, the count and the cells. */
  function WriteBraille2s(cells: seq<byte>, start: nat): (r: seq<byte>)
    ensures |r| == |cells| + 4
  {
    [Esc, 0x42, ToByte(start), ToByte(|cells|)] + cells
  }

  /** What a display makes of a protocol 1 cell packet: the column and the
      cells, when the header, count and trailer agree. */
  function DecodeBraille1(packet: seq<byte>): Option<(nat, seq<byte>)>
  {
    if |packet| >= 6 && packet[..3] == [Cr, Esc, 0x42] && packet[|packet| - 1] == Cr
      && ByteValue(packet[4]) == |packet| - 6
    then Some((ByteValue(packet[3]), packet[5..|packet| - 1]))
    else None
  }

  /** What a display makes of a protocol 2 serial cell packet. */
  function DecodeBraille2s(packet: seq<byte>): Option<(nat, seq<byte>)>
  {
    if |packet| >= 4 && packet[..2] == [Esc, 0x42] && ByteValue(packet[3]) == |packet| - 4
    then Some((packet[2] as nat, packet[4..]))
    else None
  }

  /** A cell packet of fewer than 256 cells at a column below 256 tells the
      display exactly where the cells go. */
  lemma WriteBraille1RoundTrip(cells: seq<byte>, start: nat)
    requires |cells| < 256 && start < 256
    ensures DecodeBraille1(WriteBraille1(cells, start)) == Some((start, cells))
  {
    var p := WriteBraille1(cells, start);
    assert p[..3] == [Cr, Esc, 0x42];
    assert p[5..|p| - 1] == cells;
  }

  lemma WriteBraille2sRoundTrip(cells: seq<byte>, start: nat)
    requires |cells| < 256 && start < 256
    ensures DecodeBraille2s(WriteBraille2s(cells, start)) == Some((start, cells))
  {
    var p := WriteBraille2s(cells, start);
    assert p[..2] == [Esc, 0x42];
    assert p[4..] == cells;
  }

  /** The cells of the next writeBraille2u packet: at most 40. */
  function ChunkLength2u(cells: seq<byte>): (n: nat)
    ensures n <= |cells| && n <= 40
    ensures |cells| > 0 ==> n > 0
  {
    Min(|cells|, 40)
  }

  /** A writeBraille2u packet: 0x02, the column, the count and the cells. */
  function Packet2u(cells: seq<byte>, start: nat): (r: seq<byte>)
    ensures |r| == |cells| + 3
  {
    [0x02, ToByte(start), ToByte(|cells|)] + cells
  }

  /** The packets writeBraille2u sends, the column moving on by the count
      each time. */
  function Packets2u(cells: seq<byte>, start: nat): (r: seq<seq<byte>>)
    decreases |cells|
  {
    if |cells| == 0 then []
    else
      var n := ChunkLength2u(cells);
      [Packet2u(cells[..n], start)] + Packets2u(cells[n..], start + n)
  }

  /** The cells a protocol 2 USB packet carries. */
  function Payload2u(packet: seq<byte>): seq<byte>
  {
    if |packet| >= 3 then packet[3..] else []
  }

  /** The cells of all packets, in order. */
  function Payloads2u(packets: seq<seq<byte>>): seq<byte>
  {
    if |packets| == 0 then [] else Payload2u(packets[0]) + Payloads2u(packets[1..])
  }

  /** The packets carry every cell once and in order. */
  lemma {:induction false} Packets2uCarryCells(cells: seq<byte>, start: nat)
    ensures Payloads2u(Packets2u(cells, start)) == cells
    decreases |cells|
  {
    if |cells| > 0 {
      var n := ChunkLength2u(cells);
      var ps := Packets2u(cells, start);
      Packets2uCarryCells(cells[n..], start + n);
      assert ps[1..] == Packets2u(cells[n..], start + n);
      assert Payload2u(ps[0]) == cells[..n];
      assert cells[..n] + cells[n..] == cells;
    }
  }

  lemma Packets2uUnfold(cells: seq<byte>, start: nat)
    requires |cells| > 0
    ensures var n := ChunkLength2u(cells);
      Packets2u(cells, start) == [Packet2u(cells[..n], start)] + Packets2u(cells[n..], start + n)
  {
  }

  /** One writeBraille2u packet's header. */
  lemma Packet2uHeader(chunk: seq<byte>, start: nat)
    requires 1 <= |chunk| <= 40
    ensures var p := Packet2u(chunk, start);
      && 4 <= |p| <= 43 && p[0] == 0x02
      && ByteValue(p[2]) == |p| - 3
      && ByteValue(p[1]) == start % 256
  {
  }

  /** There are as many packets as 40-cell chunks. */
  lemma {:induction false} Packets2uCount(cells: seq<byte>, start: nat)
    ensures |Packets2u(cells, start)| == (|cells| + 39) / 40
    decreases |cells|
  {
    if |cells| > 0 {
      var n := ChunkLength2u(cells);
      Packets2uUnfold(cells, start);
      Packets2uCount(cells[n..], start + n);
    }
  }

  /** The count byte of every packet is its number of cells, from 1 to 40,
      and the i-th packet starts 40 i columns on. */
  lemma {:induction false} Packets2uHeaders(cells: seq<byte>, start: nat)
    ensures Headers2u(Packets2u(cells, start), start)
    decreases |cells|
  {
    if |cells| > 0 {
      var n := ChunkLength2u(cells);
      Packets2uUnfold(cells, start);
      Packet2uHeader(cells[..n], start);
      Packets2uHeaders(cells[n..], start + n);
      var tail := Packets2u(cells[n..], start + n);
      if |tail| > 0 {
        Packets2uCount(cells[n..], start + n);
        assert n == 40;
      }
      HeadersCons(Packet2u(cells[..n], start), tail, start);
    }
  }

  /** Each packet of a run starts with 0x02 and holds 1 to 40 cells with
      their count, the `i`-th one starting at cell `start + 40 * i`. */
  predicate Headers2u(ps: seq<seq<byte>>, start: nat)
  {
    forall i :: 0 <= i < |ps| ==> Header2u(ps[i], start + 40 * i)
  }

  predicate Header2u(p: seq<byte>, at: nat)
  {
    && 4 <= |p| <= 43 && p[0] == 0x02
    && ByteValue(p[2]) == |p| - 3
    && ByteValue(p[1]) == at % 256
  }

  lemma HeadersCons(p: seq<byte>, tail: seq<seq<byte>>, start: nat)
    requires Header2u(p, start) && Headers2u(tail, start + 40)
    ensures Headers2u([p] + tail, start)
  {
    var ps := [p] + tail;
    forall i | 0 <= i < |ps| ensures Header2u(ps[i], start + 40 * i) {
      if i > 0 {
        assert ps[i] == tail[i - 1];
        assert start + 40 + 40 * (i - 1) == start + 40 * i;
      }
    }
  }

  /** writeBraille2u: the packets are written in order and the first one the
      transport refuses ends the write with 0. `writeOk(i, p)` is the
      transport's answer for the i-th packet. */
  method WriteBraille2u(cells: seq<byte>, start: nat, writeOk: (nat, seq<byte>) -> bool)
    returns (ok: bool, written: seq<seq<byte>>)
    ensures WriteOutcome(Packets2u(cells, start), written, ok, writeOk)
  {
    var ps := Packets2u(cells, start);
    written := [];
    while |written| < |ps|
      invariant |written| <= |ps| && written == ps[..|written|]
      invariant forall i :: 0 <= i < |written| ==> writeOk(i, written[i])
    {
      var packet := ps[|written|];
      written := written + [packet];
      if !writeOk(|written| - 1, packet) {
        LastRefused(ps, written, writeOk);
        return false, written;
      }
    }
    AllAccepted(ps, writeOk);
    ok := true;
  }

  // ---------------------------------------------------------------------------
  // Status and text layout: updateConfiguration
  // ---------------------------------------------------------------------------

  datatype StatusType = StatusFirst | StatusLeft | StatusRight

  /** The driver's layout: the display's cell count (actualColumns), the
      text and status cell counts, where each region starts, and the blank
      separator cell written between them, if any. Offsets and the cell
      count are one-byte variables in the driver. */
  datatype Layout = Layout(
    actualColumns: nat,
    textColumns: int,
    statusColumns: int,
    textOffset: nat,
    statusOffset: nat,
    separator: Option<nat>)

  /** updateConfiguration for a display of `columns` cells that asks for
      `statusColumns` status cells. With the status first, the text simply
      follows the status cells. Otherwise the status gets at most
      (actualColumns - 1) / 2 cells, and when it gets any a blank separator
      cell goes between it and the text, on the left or the right. */
  function UpdateConfiguration(columns: nat, statusColumns: nat, statusType: StatusType): Layout
  {
    var actual := columns % 256;
    if statusType == StatusFirst then
      Layout(actual, columns, statusColumns, statusColumns % 256, 0, None)
    else
      var status := Min(statusColumns, TruncDiv(actual - 1, 2) as nat);
      if status != 0 then
        var text := columns - (status + 1);
        var textOffset := if statusType == StatusLeft then (status + 1) % 256 else 0;
        var statusOffset := if statusType == StatusLeft then 0 else (text + 1) % 256;
        Layout(actual, text, status, textOffset, statusOffset, Some(Max(textOffset, statusOffset) - 1))
      else
        Layout(actual, columns, 0, 0, 0, None)
  }

  /** How many regions claim a display cell: the status cells, the text
      cells and the separator. */
  function Claims(l: Layout, i: int): nat
  {
    (if l.statusOffset <= i < l.statusOffset + l.statusColumns then 1 else 0)
    + (if l.textOffset <= i < l.textOffset + l.textColumns then 1 else 0)
    + (if l.separator == Some(i) then 1 else 0)
  }

  /** The status cells a left or right layout gets. */
  lemma StatusShare(columns: nat, statusColumns: nat, statusType: StatusType)
    requires columns < 256 && statusType != StatusFirst
    ensures var l := UpdateConfiguration(columns, statusColumns, statusType);
      && l.statusColumns == Min(statusColumns, if columns == 0 then 0 else (columns - 1) / 2)
      && l.actualColumns == columns
      && (l.statusColumns > 0 ==> l.textColumns == columns - l.statusColumns - 1)
      && (l.statusColumns == 0 ==> l.textColumns == columns && l.textOffset == 0 && l.separator.None?)
  {
    if columns == 0 {
      assert TruncDiv(-1, 2) == 0;
    } else {
      assert TruncDiv(columns - 1, 2) == (columns - 1) / 2;
    }
  }

  /** With the status on the left or right of a display of fewer than 256
      cells, status, separator and text cut the display into disjoint
      regions that together cover it, and the text keeps at least as many
      cells as the status. */
  lemma LayoutPartitions(columns: nat, statusColumns: nat, statusType: StatusType)
    requires columns < 256 && statusType != StatusFirst
    ensures var l := UpdateConfiguration(columns, statusColumns, statusType);
      && (forall i :: 0 <= i < columns ==> Claims(l, i) == 1)
      && (forall i :: i < 0 || i >= columns ==> Claims(l, i) == 0)
      && 0 <= l.statusColumns <= l.textColumns
      && l.statusColumns == Min(statusColumns, if columns == 0 then 0 else (columns - 1) / 2)
  {
    StatusShare(columns, statusColumns, statusType);
    var l := UpdateConfiguration(columns, statusColumns, statusType);
    var status := l.statusColumns;
    if status == 0 {
      RegionsClaim(l, columns, 0, columns, 0, 0, None);
    } else if statusType == StatusLeft {
      assert l.textOffset == status + 1 && l.statusOffset == 0 && l.separator == Some(status);
      RegionsClaim(l, columns, status + 1, columns - status - 1, 0, status, Some(status));
    } else {
      var text := columns - (status + 1);
      assert l.textOffset == 0 && l.statusOffset == text + 1 && l.separator == Some(text);
      RegionsClaim(l, columns, 0, text, text + 1, status, Some(text));
    }
  }

  /** A layout whose status, text and separator cells, in either order,
      tile the display exactly. */
  lemma RegionsClaim(l: Layout, columns: nat, textOffset: nat, textColumns: int,
                     statusOffset: nat, statusColumns: int, separator: Option<nat>)
    requires l == Layout(l.actualColumns, textColumns, statusColumns, textOffset, statusOffset, separator)
    requires 0 <= statusColumns && 0 <= textColumns
    requires
      || (statusColumns == 0 && textOffset == 0 && textColumns == columns && separator.None?)
      || (statusOffset == 0 && separator == Some(statusColumns) && textOffset == statusColumns + 1
          && textOffset + textColumns == columns)
      || (textOffset == 0 && separator == Some(textColumns) && statusOffset == textColumns + 1
          && statusOffset + statusColumns == columns)
    ensures forall i :: 0 <= i < columns ==> Claims(l, i) == 1
    ensures forall i :: i < 0 || i >= columns ==> Claims(l, i) == 0
  {
  }

  /** With the status first, the text starts right after the status cells. */
  lemma StatusFirstLayout(columns: nat, statusColumns: nat)
    requires statusColumns < 256
    ensures var l := UpdateConfiguration(columns, statusColumns, StatusFirst);
      l.statusOffset == 0 && l.textOffset == l.statusOffset + l.statusColumns && l.separator.None?
  {
  }

  // ---------------------------------------------------------------------------
  // Routing keys: interpretKeyEvent2, group 0x74
  // ---------------------------------------------------------------------------

  /** A routing key press: which row of routing keys, and the text column. */
  datatype RoutingKey = RoutingKey(secondary: bool, column: nat)

  /** The first firmware that reports routing keys without the split. */
  const SplitFirmwareFixed: nat := 0x011102

  /** A routing key of protocol 2: bit 0x80 marks the secondary row, which
      counts only when its emulation is enabled, and is cleared; older
      firmware numbers the keys of a split display from splitOffset on; the
      key must fall on a text column. Byte values are taken as numbers, so
      clearing bit 0x80 is the remainder modulo 0x80. */
  function RoutingKeyEvent2(key: nat, emulation: bool, firmware: nat, splitOffset: nat,
                            textOffset: nat, textColumns: nat): (r: Option<RoutingKey>)
    requires key < 256 && splitOffset < 256 && textOffset < 256
    ensures r.Some? ==> r.value.column < textColumns
  {
    var secondary := key >= 0x80 && emulation;
    var k := key % 0x80;
    var k' := if firmware < SplitFirmwareFixed && k >= splitOffset then k - splitOffset else k;
    if k' >= textOffset && k' - textOffset < textColumns then
      Some(RoutingKey(secondary, k' - textOffset))
    else None
  }

  /** The key byte a display sends for a routing key. */
  function RoutingKeyByte(column: nat, secondary: bool, textOffset: nat): (b: nat)
    requires textOffset + column < 0x80
    ensures b < 256
  {
    textOffset + column + (if secondary then 0x80 else 0)
  }

  /** On current firmware every text column's routing key comes back as that
      column, on the secondary row only when emulation is on. */
  lemma RoutingKeyRoundTrip(column: nat, secondary: bool, emulation: bool, firmware: nat,
                            splitOffset: nat, textOffset: nat, textColumns: nat)
    requires firmware >= SplitFirmwareFixed && splitOffset < 256
    requires column < textColumns && textOffset + column < 0x80
    ensures RoutingKeyEvent2(RoutingKeyByte(column, secondary, textOffset), emulation, firmware,
                             splitOffset, textOffset, textColumns)
      == Some(RoutingKey(secondary && emulation, column))
  {
  }

  /** On older firmware a key at or beyond the split reads as the key that
      far before it. */
  lemma SplitKeysFold(key: nat, emulation: bool, firmware: nat, splitOffset: nat,
                      textOffset: nat, textColumns: nat)
    requires firmware < SplitFirmwareFixed && key < 0x80 && textOffset < 256
    requires 0 < splitOffset <= key
    ensures RoutingKeyEvent2(key, emulation, firmware, splitOffset, textOffset, textColumns)
      == RoutingKeyEvent2(key - splitOffset, emulation, SplitFirmwareFixed, splitOffset, textOffset, textColumns)
  {
  }
}
