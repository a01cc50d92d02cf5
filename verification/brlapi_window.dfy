/** A client's braille window in the BrlAPI server (Programs/brlapi_server.c):
    the text, AND and OR attribute masks and cursor a client fills with WRITE
    packets, the parsing of those packets, and the composition of the dots
    shown when the client owns the display. */
module BrlapiWindow {
  import opened Common
  import opened BrlapiProtocol

  /** One cell per display position; `cursor` is 1-based, 0 meaning no cursor. */
  datatype Window = Window(text: seq<char>, andMask: seq<byte>, orMask: seq<byte>, cursor: nat)

  /** The window has one cell per display position and a cursor on the display. */
  predicate Fits(w: Window, size: nat) {
    |w.text| == size && |w.andMask| == size && |w.orMask| == size && w.cursor <= size
  }

  /** The window as allocBrailleWindow initialises it. */
  function Blank(size: nat): (w: Window)
    ensures Fits(w, size) && w.cursor == 0
    ensures forall i :: 0 <= i < size ==> w.text[i] == ' ' && w.andMask[i] == 0xFF && w.orMask[i] == 0
  {
    Window(seq(size, _ => ' '), seq(size, _ => 0xFF), seq(size, _ => 0), 0)
  }

  // ---------------------------------------------------------------------------
  // Dot composition (getDots)
  // ---------------------------------------------------------------------------

  /** The dots of cell `i` before the cursor is drawn. */
  function CellDots(w: Window, i: nat, dots: char -> byte): byte
    requires i < |w.text| && i < |w.andMask| && i < |w.orMask|
  {
    (dots(w.text[i]) & w.andMask[i]) | w.orMask[i]
  }

  /** The dots getDots hands to the driver: each cell's character translated by
      `dots` (the text table), masked by the AND mask and completed by the OR
      mask, with `cursorShape` added to the cursor's cell. */
  function GetDots(w: Window, size: nat, dots: char -> byte, cursorShape: byte): (buf: seq<byte>)
    requires Fits(w, size)
    ensures |buf| == size
    ensures forall i :: 0 <= i < size && i + 1 != w.cursor ==> buf[i] == CellDots(w, i, dots)
    ensures w.cursor != 0 ==> buf[w.cursor - 1] == CellDots(w, w.cursor - 1, dots) | cursorShape
  {
    var plain := seq(size, i requires 0 <= i < size => CellDots(w, i, dots));
    if w.cursor != 0 then plain[w.cursor - 1 := plain[w.cursor - 1] | cursorShape] else plain
  }

  /** With the masks a window starts with, each cell shows exactly its
      character's dots, and the cursor cell additionally the cursor shape. */
  lemma NeutralMasksShowText(w: Window, size: nat, dots: char -> byte, cursorShape: byte)
    requires Fits(w, size)
    requires forall i :: 0 <= i < size ==> w.andMask[i] == 0xFF && w.orMask[i] == 0
    ensures forall i :: 0 <= i < size && i + 1 != w.cursor ==> GetDots(w, size, dots, cursorShape)[i] == dots(w.text[i])
    ensures w.cursor != 0 ==>
      GetDots(w, size, dots, cursorShape)[w.cursor - 1] == dots(w.text[w.cursor - 1]) | cursorShape
  {
    forall i | 0 <= i < size
      ensures CellDots(w, i, dots) == dots(w.text[i])
    {
      var d := dots(w.text[i]);
      assert (d & 0xFF) | 0 == d;
    }
  }

  /** Whatever the character, the OR mask's dots are always shown and no dot
      outside the AND and OR masks ever is. */
  lemma MasksBoundCell(w: Window, i: nat, dots: char -> byte)
    requires i < |w.text| && i < |w.andMask| && i < |w.orMask|
    ensures CellDots(w, i, dots) & w.orMask[i] == w.orMask[i]
    ensures CellDots(w, i, dots) & !(w.andMask[i] | w.orMask[i]) == 0
  {
    CellBits(dots(w.text[i]), w.andMask[i], w.orMask[i]);
  }

  lemma CellBits(d: byte, a: byte, o: byte)
    ensures ((d & a) | o) & o == o
    ensures ((d & a) | o) & !(a | o) == 0
  {
  }

  // ---------------------------------------------------------------------------
  // WRITE packets (handleWrite)
  // ---------------------------------------------------------------------------

  /** Bits of the flags word of a WRITE packet (the BRLAPI_WF_* values). */
  const FlagDisplayNumber: nat := 0x01
  const FlagRegion: nat := 0x02
  const FlagText: nat := 0x04
  const FlagAnd: nat := 0x08
  const FlagOr: nat := 0x10
  const FlagCursor: nat := 0x20
  const FlagCharset: nat := 0x40

  /** `flags & bit` is non-zero, for a single-bit `bit`. */
  predicate Has(flags: nat, bit: nat)
    requires bit > 0
  {
    (flags / bit) % 2 == 1
  }

  /** The flags word of a WRITE packet, bit by bit. */
  datatype WriteFlags = WriteFlags(
    displayNumber: bool, hasRegion: bool, hasText: bool, hasAnd: bool,
    hasOr: bool, hasCursor: bool, hasCharset: bool)

  function DecodeFlags(flags: nat): WriteFlags {
    WriteFlags(Has(flags, FlagDisplayNumber), Has(flags, FlagRegion), Has(flags, FlagText),
               Has(flags, FlagAnd), Has(flags, FlagOr), Has(flags, FlagCursor), Has(flags, FlagCharset))
  }

  /** The fields of a WRITE packet, each present exactly when its flag is set:
      the region as (begin, size), the text bytes, the two masks, the cursor
      and the charset name. */
  datatype WriteRequest = WriteRequest(
    region: Option<(nat, nat)>,
    text: Option<seq<byte>>,
    andMask: Option<seq<byte>>,
    orMask: Option<seq<byte>>,
    cursor: Option<nat>,
    charset: Option<seq<byte>>)

  /** Outcome of parsing a WRITE packet: rejected with an exception code, the
      "flags 0 and nothing else" request that only marks the window empty, or a
      request with the region it applies to (1-based begin, size). */
  datatype WriteParse =
    | Malformed(code: ErrorCode)
    | ClearWindow
    | Parsed(req: WriteRequest, rbeg: nat, rsiz: nat)

  function WordBytes(w: nat): (bs: seq<byte>)
    ensures |bs| == 4
  {
    ToBigEndian(w, 4)
  }

  lemma WordRoundTrip(w: nat)
    requires w < 0x1_0000_0000
    ensures BigEndian(WordBytes(w)) == w
  {
    assert Pow256(4) == 0x1_0000_0000;
    BigEndianRoundTrip(w, 4);
  }

  function NoRequest(): WriteRequest {
    WriteRequest(None, None, None, None, None, None)
  }

  /** The region check as written: `rbeg+rsiz-1` is computed in 32-bit
      unsigned arithmetic before being compared with the display size. */
  predicate RegionAcceptedAsWritten(rbeg: nat, rsiz: nat, displaySize: nat)
    requires rbeg < 0x1_0000_0000 && rsiz < 0x1_0000_0000
  {
    1 <= rbeg && rsiz > 0 && (rbeg + rsiz - 1) % 0x1_0000_0000 <= displaySize
  }

  /** The wrap-around lets a region far larger than the display through. */
  lemma RegionWrapAccepted()
    ensures RegionAcceptedAsWritten(2, 0xFFFF_FFFF, 40)
    ensures !(2 + 0xFFFF_FFFF - 1 <= 40)
  {
  }

  /** The region check as intended: the region starts on the display and ends
      on it. */
  predicate RegionAccepted(rbeg: nat, rsiz: nat, displaySize: nat) {
    1 <= rbeg && rsiz > 0 && rbeg + rsiz - 1 <= displaySize
  }

  /** An accepted region is a non-empty run of cells of the display. */
  lemma RegionAcceptedOnDisplay(rbeg: nat, rsiz: nat, displaySize: nat)
    requires RegionAccepted(rbeg, rsiz, displaySize)
    ensures 0 <= rbeg - 1 < rbeg - 1 + rsiz <= displaySize
  {
  }

  /** Both checks agree whenever the sum does not wrap. */
  lemma RegionChecksAgree(rbeg: nat, rsiz: nat, displaySize: nat)
    requires rbeg < 0x1_0000_0000 && rsiz < 0x1_0000_0000 && rbeg + rsiz - 1 < 0x1_0000_0000
    ensures RegionAcceptedAsWritten(rbeg, rsiz, displaySize) <==> RegionAccepted(rbeg, rsiz, displaySize)
  {
  }

  /** The fields of a request fit its region and the display: each mask
      has one byte per cell of the region, the cursor is at most the display
      size. */
  predicate Applicable(req: WriteRequest, rsiz: nat, displaySize: nat) {
    && (req.andMask.Some? ==> |req.andMask.value| == rsiz)
    && (req.orMask.Some? ==> |req.orMask.value| == rsiz)
    && (req.cursor.Some? ==> req.cursor.value <= displaySize)
  }

  /** Parses the payload of a WRITE packet (at least the 4-byte flags word,
      which the handler checks first), in the order handleWrite checks its
      fields. */
  function ParseWrite(content: seq<byte>, displaySize: nat): (r: WriteParse)
    requires |content| >= 4
    ensures r.Parsed? ==> RegionAccepted(r.rbeg, r.rsiz, displaySize) || (r.rbeg == 1 && r.rsiz == displaySize)
    ensures r.Parsed? ==> Applicable(r.req, r.rsiz, displaySize)
  {
    var flags := BigEndian(content[..4]);
    if |content| == 4 && flags == 0 then ClearWindow
    else if Has(flags, FlagDisplayNumber) then Malformed(OpNotSupported)
    else ParseRegion(DecodeFlags(flags), content[4..], displaySize)
  }

  function ParseRegion(f: WriteFlags, rest: seq<byte>, displaySize: nat): (r: WriteParse)
    ensures r.Parsed? ==> RegionAccepted(r.rbeg, r.rsiz, displaySize) || (r.rbeg == 1 && r.rsiz == displaySize)
    ensures r.Parsed? ==> Applicable(r.req, r.rsiz, displaySize)
  {
    if f.hasRegion then
      if |rest| <= 8 then Malformed(InvalidPacket)
      else
        var rbeg := BigEndian(rest[..4]);
        var rsiz := BigEndian(rest[4..8]);
        if !RegionAccepted(rbeg, rsiz, displaySize) then Malformed(InvalidParameter)
        else ParseText(f, rest[8..], NoRequest().(region := Some((rbeg, rsiz))), rbeg, rsiz, displaySize)
    else ParseText(f, rest, NoRequest(), 1, displaySize, displaySize)
  }

  function ParseText(f: WriteFlags, rest: seq<byte>, req: WriteRequest, rbeg: nat, rsiz: nat, displaySize: nat): (r: WriteParse)
    requires Applicable(req, rsiz, displaySize)
    ensures r.Parsed? ==> r.rbeg == rbeg && r.rsiz == rsiz && Applicable(r.req, rsiz, displaySize)
  {
    if f.hasText then
      if |rest| < 4 then Malformed(InvalidPacket)
      else
        var len := BigEndian(rest[..4]);
        if |rest| - 4 < len then Malformed(InvalidPacket)
        else ParseMasks(f, rest[4 + len..], req.(text := Some(rest[4..4 + len])), rbeg, rsiz, displaySize)
    else ParseMasks(f, rest, req, rbeg, rsiz, displaySize)
  }

  /** The AND mask: one byte per cell of the region. */
  function ParseMasks(f: WriteFlags, rest: seq<byte>, req: WriteRequest, rbeg: nat, rsiz: nat, displaySize: nat): (r: WriteParse)
    requires Applicable(req, rsiz, displaySize)
    ensures r.Parsed? ==> r.rbeg == rbeg && r.rsiz == rsiz && Applicable(r.req, rsiz, displaySize)
  {
    if f.hasAnd then
      if |rest| < rsiz then Malformed(InvalidPacket)
      else ParseOrMask(f, rest[rsiz..], req.(andMask := Some(rest[..rsiz])), rbeg, rsiz, displaySize)
    else ParseOrMask(f, rest, req, rbeg, rsiz, displaySize)
  }

  /** The OR mask: one byte per cell of the region. */
  function ParseOrMask(f: WriteFlags, rest: seq<byte>, req: WriteRequest, rbeg: nat, rsiz: nat, displaySize: nat): (r: WriteParse)
    requires Applicable(req, rsiz, displaySize)
    ensures r.Parsed? ==> r.rbeg == rbeg && r.rsiz == rsiz && Applicable(r.req, rsiz, displaySize)
  {
    if f.hasOr then
      if |rest| < rsiz then Malformed(InvalidPacket)
      else ParseCursor(f, rest[rsiz..], req.(orMask := Some(rest[..rsiz])), rbeg, rsiz, displaySize)
    else ParseCursor(f, rest, req, rbeg, rsiz, displaySize)
  }

  function ParseCursor(f: WriteFlags, rest: seq<byte>, req: WriteRequest, rbeg: nat, rsiz: nat, displaySize: nat): (r: WriteParse)
    requires Applicable(req, rsiz, displaySize)
    ensures r.Parsed? ==> r.rbeg == rbeg && r.rsiz == rsiz && Applicable(r.req, rsiz, displaySize)
  {
    if f.hasCursor then
      if |rest| < 4 then Malformed(InvalidPacket)
      else
        var cursor := BigEndian(rest[..4]);
        if cursor > displaySize then Malformed(InvalidPacket)
        else ParseCharset(f, rest[4..], req.(cursor := Some(cursor)), rbeg, rsiz)
    else ParseCharset(f, rest, req, rbeg, rsiz)
  }

  function ParseCharset(f: WriteFlags, rest: seq<byte>, req: WriteRequest, rbeg: nat, rsiz: nat): (r: WriteParse)
    ensures r.Parsed? ==> r.rbeg == rbeg && r.rsiz == rsiz && r.req.(charset := None) == req.(charset := None)
  {
    if f.hasCharset then
      if !f.hasText then Malformed(InvalidPacket)
      else if |rest| < 1 then Malformed(InvalidPacket)
      else
        var len := ByteValue(rest[0]);
        if |rest| - 1 < len then Malformed(InvalidPacket)
        else if |rest| - 1 - len != 0 then Malformed(InvalidPacket)
        else Parsed(req.(charset := Some(rest[1..1 + len])), rbeg, rsiz)
    else if |rest| != 0 then Malformed(InvalidPacket)
    else Parsed(req, rbeg, rsiz)
  }

  // ---------------------------------------------------------------------------
  // Encoding a WRITE packet, as a client library does
  // ---------------------------------------------------------------------------

  function Bit(present: bool, bit: nat): nat {
    if present then bit else 0
  }

  /** The flags word announcing exactly the fields present in `req`. */
  function FlagsOf(req: WriteRequest): nat {
    Bit(req.region.Some?, FlagRegion) + Bit(req.text.Some?, FlagText)
    + Bit(req.andMask.Some?, FlagAnd) + Bit(req.orMask.Some?, FlagOr)
    + Bit(req.cursor.Some?, FlagCursor) + Bit(req.charset.Some?, FlagCharset)
  }

  lemma FlagsOfBits(req: WriteRequest)
    ensures FlagsOf(req) < 0x80
    ensures DecodeFlags(FlagsOf(req)) == WriteFlags(
      false, req.region.Some?, req.text.Some?, req.andMask.Some?,
      req.orMask.Some?, req.cursor.Some?, req.charset.Some?)
  {
  }

  function OptBytes(b: Option<seq<byte>>): seq<byte> {
    if b.Some? then b.value else []
  }

  function CharsetBytes(req: WriteRequest): seq<byte>
    requires req.charset.Some? ==> |req.charset.value| < 256
  {
    if req.charset.Some? then [ToByte(|req.charset.value|)] + req.charset.value else []
  }

  function CursorBytes(req: WriteRequest): seq<byte> {
    if req.cursor.Some? then WordBytes(req.cursor.value) else []
  }

  function TextBytes(req: WriteRequest): seq<byte> {
    if req.text.Some? then WordBytes(|req.text.value|) + req.text.value else []
  }

  function RegionBytes(req: WriteRequest): seq<byte> {
    if req.region.Some? then WordBytes(req.region.value.0) + WordBytes(req.region.value.1) else []
  }

  /** The bytes that follow the cursor word: the charset's length byte and name. */
  function TailCursor(req: WriteRequest): seq<byte>
    requires req.charset.Some? ==> |req.charset.value| < 256
  {
    CursorBytes(req) + CharsetBytes(req)
  }

  function TailOr(req: WriteRequest): seq<byte>
    requires req.charset.Some? ==> |req.charset.value| < 256
  {
    OptBytes(req.orMask) + TailCursor(req)
  }

  function TailAnd(req: WriteRequest): seq<byte>
    requires req.charset.Some? ==> |req.charset.value| < 256
  {
    OptBytes(req.andMask) + TailOr(req)
  }

  function TailText(req: WriteRequest): seq<byte>
    requires req.charset.Some? ==> |req.charset.value| < 256
  {
    TextBytes(req) + TailAnd(req)
  }

  /** The WRITE payload a client sends for `req`: the flags word, then each
      field present, in the order the server reads them. */
  function EncodeWrite(req: WriteRequest): (bytes: seq<byte>)
    requires req.charset.Some? ==> |req.charset.value| < 256
  {
    WordBytes(FlagsOf(req)) + (RegionBytes(req) + TailText(req))
  }

  /** Where the text bytes start in a WRITE payload: after the flags word,
      the region's two words when there is a region, and the text length. */
  function TextStart(req: WriteRequest): (k: nat)
    ensures k <= 16
  {
    if req.region.Some? then 16 else 8
  }

  /** In the payload a client sends, the text starts at TextStart and is
      followed by the masks, the cursor and the charset. */
  lemma TextStartsAt(req: WriteRequest)
    requires req.charset.Some? ==> |req.charset.value| < 256
    requires req.text.Some?
    ensures TextStart(req) <= |EncodeWrite(req)|
    ensures EncodeWrite(req)[TextStart(req)..] == req.text.value + TailAnd(req)
  {
    var t := req.text.value;
    assert TailText(req) == WordBytes(|t|) + (t + TailAnd(req));
    assert |RegionBytes(req)| == TextStart(req) - 8;
    var bytes := EncodeWrite(req);
    assert bytes == (WordBytes(FlagsOf(req)) + RegionBytes(req) + WordBytes(|t|)) + (t + TailAnd(req));
  }

  /** The size of the region a request covers: the one it names, or the display. */
  function RegionSize(req: WriteRequest, displaySize: nat): nat {
    if req.region.Some? then req.region.value.1 else displaySize
  }

  function RegionBegin(req: WriteRequest): nat {
    if req.region.Some? then req.region.value.0 else 1
  }

  /** A request handleWrite accepts: an accepted region, masks one byte per
      cell of the region, a cursor on the display, a charset only with text
      and at most 255 bytes long, every word within 32 bits, and at least one
      field besides the region (a lone region is rejected as too short, no
      field at all means "clear"). */
  predicate WellFormed(req: WriteRequest, displaySize: nat) {
    var rsiz := RegionSize(req, displaySize);
    (req.region.Some? ==> req.region.value.0 < 0x1_0000_0000 && req.region.value.1 < 0x1_0000_0000
                          && RegionAccepted(req.region.value.0, req.region.value.1, displaySize))
    && (req.text.Some? ==> |req.text.value| < 0x1_0000_0000)
    && (req.andMask.Some? ==> |req.andMask.value| == rsiz)
    && (req.orMask.Some? ==> |req.orMask.value| == rsiz)
    && (req.cursor.Some? ==> req.cursor.value <= displaySize && req.cursor.value < 0x1_0000_0000)
    && (req.charset.Some? ==> req.text.Some? && |req.charset.value| < 256)
    && (req.text.Some? || req.andMask.Some? || req.orMask.Some? || req.cursor.Some?)
  }

  lemma {:induction false} ParseCharsetEncoded(f: WriteFlags, req: WriteRequest, rbeg: nat, rsiz: nat)
    requires req.charset.Some? ==> |req.charset.value| < 256
    requires f.hasCharset <==> req.charset.Some?
    requires req.charset.Some? ==> f.hasText
    ensures ParseCharset(f, CharsetBytes(req), req.(charset := None), rbeg, rsiz) == Parsed(req, rbeg, rsiz)
  {
    if req.charset.Some? {
      var cs := req.charset.value;
      CharsetField(cs);
      assert req.(charset := None).(charset := Some(cs)) == req;
    } else {
      assert req.(charset := None) == req;
    }
  }

  /** The parts of a length word, the bytes it counts and what follows. */
  lemma CountedSlices(word: seq<byte>, t: seq<byte>, tail: seq<byte>)
    requires |word| == 4
    ensures (word + (t + tail))[..4] == word
    ensures (word + (t + tail))[4..4 + |t|] == t
    ensures (word + (t + tail))[4 + |t|..] == tail
  {
  }

  /** The charset field: a length byte, then the name. */
  lemma CharsetField(cs: seq<byte>)
    requires |cs| < 256
    ensures var bytes := [ToByte(|cs|)] + cs;
      |bytes| == 1 + |cs| && ByteValue(bytes[0]) == |cs| && bytes[1..1 + |cs|] == cs
  {
  }

  lemma {:induction false} ParseCursorEncoded(f: WriteFlags, req: WriteRequest, rbeg: nat, rsiz: nat, displaySize: nat)
    requires req.charset.Some? ==> |req.charset.value| < 256
    requires f.hasCharset <==> req.charset.Some?
    requires req.charset.Some? ==> f.hasText
    requires f.hasCursor <==> req.cursor.Some?
    requires req.cursor.Some? ==> req.cursor.value <= displaySize && req.cursor.value < 0x1_0000_0000
    requires req.andMask.Some? ==> |req.andMask.value| == rsiz
    requires req.orMask.Some? ==> |req.orMask.value| == rsiz
    ensures ParseCursor(f, TailCursor(req), req.(cursor := None, charset := None), rbeg, rsiz, displaySize)
         == Parsed(req, rbeg, rsiz)
  {
    var rest := TailCursor(req);
    ParseCharsetEncoded(f, req, rbeg, rsiz);
    if req.cursor.Some? {
      WordRoundTrip(req.cursor.value);
      assert rest[..4] == CursorBytes(req);
      assert rest[4..] == CharsetBytes(req);
      assert req.(cursor := None, charset := None).(cursor := req.cursor) == req.(charset := None);
    } else {
      assert rest == CharsetBytes(req);
      assert req.(cursor := None, charset := None) == req.(charset := None);
    }
  }

  lemma {:induction false} ParseOrEncoded(f: WriteFlags, req: WriteRequest, rbeg: nat, rsiz: nat, displaySize: nat)
    requires req.charset.Some? ==> |req.charset.value| < 256
    requires f.hasCharset <==> req.charset.Some?
    requires req.charset.Some? ==> f.hasText
    requires f.hasCursor <==> req.cursor.Some?
    requires req.cursor.Some? ==> req.cursor.value <= displaySize && req.cursor.value < 0x1_0000_0000
    requires f.hasOr <==> req.orMask.Some?
    requires req.orMask.Some? ==> |req.orMask.value| == rsiz
    requires req.andMask.Some? ==> |req.andMask.value| == rsiz
    ensures ParseOrMask(f, TailOr(req), req.(orMask := None, cursor := None, charset := None), rbeg, rsiz, displaySize)
         == Parsed(req, rbeg, rsiz)
  {
    var rest := TailOr(req);
    ParseCursorEncoded(f, req, rbeg, rsiz, displaySize);
    if req.orMask.Some? {
      assert rest == req.orMask.value + TailCursor(req);
      assert rest[..rsiz] == req.orMask.value;
      assert rest[rsiz..] == TailCursor(req);
      assert req.(orMask := None, cursor := None, charset := None).(orMask := req.orMask)
          == req.(cursor := None, charset := None);
    } else {
      assert rest == TailCursor(req);
      assert req.(orMask := None, cursor := None, charset := None) == req.(cursor := None, charset := None);
    }
  }

  lemma {:induction false} ParseMasksEncoded(f: WriteFlags, req: WriteRequest, rbeg: nat, rsiz: nat, displaySize: nat)
    requires req.charset.Some? ==> |req.charset.value| < 256
    requires f.hasCharset <==> req.charset.Some?
    requires req.charset.Some? ==> f.hasText
    requires f.hasCursor <==> req.cursor.Some?
    requires req.cursor.Some? ==> req.cursor.value <= displaySize && req.cursor.value < 0x1_0000_0000
    requires f.hasAnd <==> req.andMask.Some?
    requires f.hasOr <==> req.orMask.Some?
    requires req.andMask.Some? ==> |req.andMask.value| == rsiz
    requires req.orMask.Some? ==> |req.orMask.value| == rsiz
    ensures ParseMasks(f, TailAnd(req), req.(andMask := None, orMask := None, cursor := None, charset := None), rbeg, rsiz, displaySize)
         == Parsed(req, rbeg, rsiz)
  {
    var rest := TailAnd(req);
    ParseOrEncoded(f, req, rbeg, rsiz, displaySize);
    if req.andMask.Some? {
      assert rest == req.andMask.value + TailOr(req);
      assert rest[..rsiz] == req.andMask.value;
      assert rest[rsiz..] == TailOr(req);
      assert req.(andMask := None, orMask := None, cursor := None, charset := None).(andMask := req.andMask)
          == req.(orMask := None, cursor := None, charset := None);
    } else {
      assert rest == TailOr(req);
      assert req.(andMask := None, orMask := None, cursor := None, charset := None)
          == req.(orMask := None, cursor := None, charset := None);
    }
  }

  lemma {:induction false} ParseTextEncoded(f: WriteFlags, req: WriteRequest, rbeg: nat, rsiz: nat, displaySize: nat)
    requires req.charset.Some? ==> |req.charset.value| < 256
    requires f.hasCharset <==> req.charset.Some?
    requires req.charset.Some? ==> f.hasText
    requires f.hasCursor <==> req.cursor.Some?
    requires req.cursor.Some? ==> req.cursor.value <= displaySize && req.cursor.value < 0x1_0000_0000
    requires f.hasAnd <==> req.andMask.Some?
    requires f.hasOr <==> req.orMask.Some?
    requires req.andMask.Some? ==> |req.andMask.value| == rsiz
    requires req.orMask.Some? ==> |req.orMask.value| == rsiz
    requires f.hasText <==> req.text.Some?
    requires req.text.Some? ==> |req.text.value| < 0x1_0000_0000
    ensures ParseText(f, TailText(req), req.(text := None, andMask := None, orMask := None, cursor := None, charset := None), rbeg, rsiz, displaySize)
         == Parsed(req, rbeg, rsiz)
  {
    var rest := TailText(req);
    ParseMasksEncoded(f, req, rbeg, rsiz, displaySize);
    var start := req.(text := None, andMask := None, orMask := None, cursor := None, charset := None);
    if req.text.Some? {
      var t := req.text.value;
      WordRoundTrip(|t|);
      assert rest == WordBytes(|t|) + (t + TailAnd(req));
      CountedSlices(WordBytes(|t|), t, TailAnd(req));
      assert start.(text := Some(t)) == req.(andMask := None, orMask := None, cursor := None, charset := None);
    } else {
      assert rest == TailAnd(req);
      assert start == req.(andMask := None, orMask := None, cursor := None, charset := None);
    }
  }

  /** The stages after the region, started as the region stage starts them. */
  lemma {:induction false} ParseAfterRegion(req: WriteRequest, displaySize: nat)
    requires WellFormed(req, displaySize)
    ensures ParseText(DecodeFlags(FlagsOf(req)), TailText(req),
                      NoRequest().(region := req.region), RegionBegin(req), RegionSize(req, displaySize), displaySize)
         == Parsed(req, RegionBegin(req), RegionSize(req, displaySize))
  {
    FlagsOfBits(req);
    var start := req.(text := None, andMask := None, orMask := None, cursor := None, charset := None);
    assert NoRequest().(region := req.region) == start;
    ParseTextEncoded(DecodeFlags(FlagsOf(req)), req, RegionBegin(req), RegionSize(req, displaySize), displaySize);
  }

  lemma {:induction false} ParseRegionEncoded(req: WriteRequest, displaySize: nat)
    requires WellFormed(req, displaySize)
    ensures ParseRegion(DecodeFlags(FlagsOf(req)), RegionBytes(req) + TailText(req), displaySize)
         == Parsed(req, RegionBegin(req), RegionSize(req, displaySize))
  {
    if req.region.Some? {
      ParseRegionPresent(req, displaySize);
    } else {
      FlagsOfBits(req);
      ParseAfterRegion(req, displaySize);
      assert RegionBytes(req) + TailText(req) == TailText(req);
      assert NoRequest() == NoRequest().(region := req.region);
    }
  }

  /** The region stage reads the two words of a region the request names. */
  lemma ParseRegionPresent(req: WriteRequest, displaySize: nat)
    requires WellFormed(req, displaySize) && req.region.Some?
    ensures ParseRegion(DecodeFlags(FlagsOf(req)), RegionBytes(req) + TailText(req), displaySize)
         == Parsed(req, RegionBegin(req), RegionSize(req, displaySize))
  {
    FlagsOfBits(req);
    ParseAfterRegion(req, displaySize);
    var rbeg, rsiz := req.region.value.0, req.region.value.1;
    assert |TailText(req)| > 0;
    RegionWordsRead(DecodeFlags(FlagsOf(req)), rbeg, rsiz, TailText(req), displaySize);
    assert RegionBytes(req) + TailText(req) == WordBytes(rbeg) + WordBytes(rsiz) + TailText(req);
    assert NoRequest().(region := Some((rbeg, rsiz))) == NoRequest().(region := req.region);
  }

  /** Two region words followed by at least one byte pass the region stage
      with that region. */
  lemma RegionWordsRead(f: WriteFlags, rbeg: nat, rsiz: nat, tail: seq<byte>, displaySize: nat)
    requires f.hasRegion && rbeg < 0x1_0000_0000 && rsiz < 0x1_0000_0000
    requires RegionAccepted(rbeg, rsiz, displaySize) && |tail| > 0
    ensures ParseRegion(f, WordBytes(rbeg) + WordBytes(rsiz) + tail, displaySize)
         == ParseText(f, tail, NoRequest().(region := Some((rbeg, rsiz))), rbeg, rsiz, displaySize)
  {
    var rest := WordBytes(rbeg) + WordBytes(rsiz) + tail;
    WordRoundTrip(rbeg);
    WordRoundTrip(rsiz);
    assert rest[..4] == WordBytes(rbeg);
    assert rest[4..8] == WordBytes(rsiz);
    assert rest[8..] == tail;
  }

  /** Parsing inverts encoding: a well-formed request survives the trip to
      bytes and back, with the region it names or the whole display. */
  lemma WriteRoundTrip(req: WriteRequest, displaySize: nat)
    requires WellFormed(req, displaySize)
    ensures ParseWrite(EncodeWrite(req), displaySize) == Parsed(req, RegionBegin(req), RegionSize(req, displaySize))
  {
    var bytes := EncodeWrite(req);
    FlagsOfBits(req);
    WordRoundTrip(FlagsOf(req));
    assert bytes[..4] == WordBytes(FlagsOf(req));
    assert bytes[4..] == RegionBytes(req) + TailText(req);
    assert FlagsOf(req) != 0;
    ParseRegionEncoded(req, displaySize);
  }

  // ---------------------------------------------------------------------------
  // Applying a WRITE to the window
  // ---------------------------------------------------------------------------

  /** `s` with the elements from `at` on replaced by `part`. */
  function Splice<T>(s: seq<T>, at: nat, part: seq<T>): (r: seq<T>)
    requires at + |part| <= |s|
    ensures |r| == |s|
    ensures forall i :: 0 <= i < |s| ==> r[i] == if at <= i < at + |part| then part[i - at] else s[i]
  {
    s[..at] + part + s[at + |part|..]
  }

  /** What handleWrite stores once a request is checked and its text converted
      (`text` holds the converted characters exactly when the request carries
      text): the region's cells receive the text and the masks sent, masks
      not sent alongside a text are reset to 0xFF and 0x00, and a cursor that
      is non-negative as a C `int` replaces the old one. */
  function ApplyWrite(w: Window, displaySize: nat, req: WriteRequest, rbeg: nat, rsiz: nat, text: Option<seq<char>>): (r: Window)
    requires Fits(w, displaySize) && 1 <= rbeg && rbeg - 1 + rsiz <= displaySize
    requires text.Some? <==> req.text.Some?
    requires text.Some? ==> |text.value| == rsiz
    requires req.andMask.Some? ==> |req.andMask.value| == rsiz
    requires req.orMask.Some? ==> |req.orMask.value| == rsiz
    requires req.cursor.Some? ==> req.cursor.value <= displaySize
    ensures Fits(r, displaySize)
    ensures forall i :: 0 <= i < displaySize && !(rbeg - 1 <= i < rbeg - 1 + rsiz) ==> r.text[i] == w.text[i]
    ensures forall i :: 0 <= i < displaySize && !(rbeg - 1 <= i < rbeg - 1 + rsiz) ==> r.andMask[i] == w.andMask[i]
    ensures forall i :: 0 <= i < displaySize && !(rbeg - 1 <= i < rbeg - 1 + rsiz) ==> r.orMask[i] == w.orMask[i]
    ensures forall i :: rbeg - 1 <= i < rbeg - 1 + rsiz ==>
      r.text[i] == (if text.Some? then text.value[i - (rbeg - 1)] else w.text[i])
    ensures forall i :: rbeg - 1 <= i < rbeg - 1 + rsiz ==>
      r.andMask[i] == (if req.andMask.Some? then req.andMask.value[i - (rbeg - 1)]
                       else if text.Some? then 0xFF else w.andMask[i])
    ensures forall i :: rbeg - 1 <= i < rbeg - 1 + rsiz ==>
      r.orMask[i] == (if req.orMask.Some? then req.orMask.value[i - (rbeg - 1)]
                      else if text.Some? then 0x00 else w.orMask[i])
    ensures r.cursor == if req.cursor.Some? && WrapInt32(req.cursor.value) >= 0 then req.cursor.value else w.cursor
  {
    Window(TextAfter(w.text, rbeg - 1, rsiz, text),
           MaskAfter(w.andMask, rbeg - 1, rsiz, req.andMask, text.Some?, 0xFF),
           MaskAfter(w.orMask, rbeg - 1, rsiz, req.orMask, text.Some?, 0x00),
           if req.cursor.Some? && WrapInt32(req.cursor.value) >= 0 then req.cursor.value else w.cursor)
  }

  /** The text after a write: the converted characters, when there are any,
      go into the region. */
  function TextAfter(cells: seq<char>, at: nat, rsiz: nat, text: Option<seq<char>>): (r: seq<char>)
    requires at + rsiz <= |cells|
    requires text.Some? ==> |text.value| == rsiz
    ensures |r| == |cells|
    ensures forall i :: 0 <= i < |cells| && !(at <= i < at + rsiz) ==> r[i] == cells[i]
    ensures forall i :: at <= i < at + rsiz ==> r[i] == (if text.Some? then text.value[i - at] else cells[i])
  {
    if text.Some? then Splice(cells, at, text.value) else cells
  }

  /** One mask after a write: the mask sent goes into the region; without
      one, a write of text resets the region to `reset`. */
  function MaskAfter(mask: seq<byte>, at: nat, rsiz: nat, sent: Option<seq<byte>>, withText: bool, reset: byte): (r: seq<byte>)
    requires at + rsiz <= |mask|
    requires sent.Some? ==> |sent.value| == rsiz
    ensures |r| == |mask|
    ensures forall i :: 0 <= i < |mask| && !(at <= i < at + rsiz) ==> r[i] == mask[i]
    ensures forall i :: at <= i < at + rsiz ==>
      r[i] == (if sent.Some? then sent.value[i - at] else if withText then reset else mask[i])
  {
    if sent.Some? then Splice(mask, at, sent.value)
    else if withText then Splice(mask, at, seq(rsiz, _ => reset))
    else mask
  }

  /** Window `w` shows the characters `chars` over the region of `rsiz`
      cells from cell `rbeg` (counted from 1) on, each cell outside the
      cursor exactly its character's dots, and every other cell what `w0`
      shows, with `w0`'s cursor. */
  predicate ShowsTextOver(w: Window, w0: Window, displaySize: nat, rbeg: nat, rsiz: nat, chars: seq<char>,
                          dots: char -> byte, cursorShape: byte)
    requires Fits(w, displaySize) && Fits(w0, displaySize) && 1 <= rbeg && rbeg - 1 + rsiz <= displaySize
    requires |chars| == rsiz
  {
    && w.cursor == w0.cursor
    && (forall i :: rbeg - 1 <= i < rbeg - 1 + rsiz && i + 1 != w.cursor ==>
          GetDots(w, displaySize, dots, cursorShape)[i] == dots(chars[i - (rbeg - 1)]))
    && (forall i :: 0 <= i < displaySize && !(rbeg - 1 <= i < rbeg - 1 + rsiz) ==>
          GetDots(w, displaySize, dots, cursorShape)[i] == GetDots(w0, displaySize, dots, cursorShape)[i])
  }

  /** A write of text alone shows, on each cell of the region outside the
      cursor, exactly the dots of its new character, leaves every other cell
      showing what it showed, and keeps the cursor. */
  lemma TextAloneShows(w0: Window, displaySize: nat, req: WriteRequest, rbeg: nat, rsiz: nat, chars: seq<char>,
                       dots: char -> byte, cursorShape: byte)
    requires Fits(w0, displaySize) && 1 <= rbeg && rbeg - 1 + rsiz <= displaySize
    requires req.text.Some? && req.andMask.None? && req.orMask.None? && req.cursor.None? && |chars| == rsiz
    ensures ShowsTextOver(ApplyWrite(w0, displaySize, req, rbeg, rsiz, Some(chars)), w0, displaySize,
                          rbeg, rsiz, chars, dots, cursorShape)
  {
    var w := ApplyWrite(w0, displaySize, req, rbeg, rsiz, Some(chars));
    forall i | rbeg - 1 <= i < rbeg - 1 + rsiz
      ensures CellDots(w, i, dots) == dots(chars[i - (rbeg - 1)])
    {
      var d := dots(chars[i - (rbeg - 1)]);
      assert (d & 0xFF) | 0 == d;
    }
    forall i | 0 <= i < displaySize && !(rbeg - 1 <= i < rbeg - 1 + rsiz)
      ensures CellDots(w, i, dots) == CellDots(w0, i, dots)
    {
    }
  }
}
