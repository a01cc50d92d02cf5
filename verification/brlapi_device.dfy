/** The BrlAPI handlers that reach the display and the braille driver
    (Programs/brlapi_server.c, handleWrite to handleResumeDriver): filling a
    connection's window, and taking the driver for raw packets or
    suspending it. */
module BrlapiDevice {
  import opened Common
  import opened BrlapiProtocol
  import opened BrlapiTty
  import opened BrlapiWindow
  import opened BrlapiServer
  import opened BrlapiHandlers

  // ---------------------------------------------------------------------------
  // WRITE (handleWrite)
  // ---------------------------------------------------------------------------

  /** iconv as handleWrite uses it: from the text bytes, in the charset
      named, to characters; None when iconv_open or iconv fails. */
  type Converter = (seq<byte>, seq<byte>) -> Option<seq<char>>

  /** How the server turns text into characters.  Built with iconv
      (`iconv`), it converts from the charset the packet names or, when the
      packet names none, from the core's charset (`coreCharset`, None when
      getCharset gives NULL).  With no charset to convert from, or without
      iconv, it copies the bytes as ISO-8859-1. */
  datatype TextSetup = TextSetup(iconv: bool, coreCharset: Option<seq<byte>>, convert: Converter)

  /** "iso-8859-1", the one charset a server without iconv accepts. */
  const Latin1Name: seq<byte> := [0x69, 0x73, 0x6F, 0x2D, 0x38, 0x38, 0x35, 0x39, 0x2D, 0x31]

  /** `tolower` on a byte in the "C" locale. */
  function LowerByte(b: byte): (r: byte)
    ensures 0x41 <= b <= 0x5A ==> r == b + 0x20
    ensures !(0x41 <= b <= 0x5A) ==> r == b
  {
    if 0x41 <= b <= 0x5A then b + 0x20 else b
  }

  /** strcasecmp finds the name (a C string: up to its first NUL) equal to
      "iso-8859-1". */
  predicate NamesLatin1(name: seq<byte>) {
    var z := UpToNul(name);
    |z| == |Latin1Name| && forall i :: 0 <= i < |z| ==> LowerByte(z[i]) == Latin1Name[i]
  }

  /** The charset iconv converts a request's text from, if it converts it
      at all: the packet's name as a C string, else the core's charset. */
  function SourceCharset(req: WriteRequest, setup: TextSetup): (r: Option<seq<byte>>)
    ensures r.Some? ==> setup.iconv
    ensures setup.iconv && req.charset.Some? ==> r == Some(UpToNul(req.charset.value))
    ensures setup.iconv && req.charset.None? ==> r == setup.coreCharset
  {
    if !setup.iconv then None
    else if req.charset.Some? then Some(UpToNul(req.charset.value))
    else setup.coreCharset
  }

  /** The ISO-8859-1 copy: each of the `rsiz` bytes of `memory`, which
      starts where the text does, becomes the character of that code,
      however long the text actually is. */
  function Latin1Copy(memory: seq<byte>, rsiz: nat): (chars: seq<char>)
    requires rsiz <= |memory|
    ensures |chars| == rsiz
    ensures forall i :: 0 <= i < rsiz ==> chars[i] as int == ByteValue(memory[i])
  {
    seq(rsiz, i requires 0 <= i < rsiz => ByteValue(memory[i]) as char)
  }

  /** The characters of a request's text; no characters for a request
      without text.  Without iconv, a named charset other than ISO-8859-1
      is refused as unsupported.  A text iconv converts must fill the region
      exactly; a text copied as ISO-8859-1 is not checked against the region
      at all, and `memory` holds the bytes from the start of the text on:
      the rest of the packet, then what the buffer holds beyond it. */
  function ConvertText(req: WriteRequest, rsiz: nat, setup: TextSetup, memory: seq<byte>): (r: Checked<Option<seq<char>>>)
    requires rsiz <= |memory|
    ensures r.Ok? ==> (r.value.Some? <==> req.text.Some?) && (r.value.Some? ==> |r.value.value| == rsiz)
    ensures r.Refused? ==> req.text.Some?
    ensures r == Refused(OpNotSupported) <==>
      req.text.Some? && !setup.iconv && req.charset.Some? && !NamesLatin1(req.charset.value)
    ensures r.Refused? && r.code != OpNotSupported ==> r.code == InvalidPacket && SourceCharset(req, setup).Some?
    ensures req.text.Some? && SourceCharset(req, setup).Some? ==>
      (r.Ok? <==> exists chars :: setup.convert(SourceCharset(req, setup).value, req.text.value) == Some(chars)
                                  && |chars| == rsiz)
    ensures req.text.Some? && SourceCharset(req, setup).Some? && r.Ok? ==>
      setup.convert(SourceCharset(req, setup).value, req.text.value) == r.value
    ensures req.text.Some? && SourceCharset(req, setup).None? && r.Ok? ==> r.value == Some(Latin1Copy(memory, rsiz))
  {
    if req.text.None? then Ok(None)
    else if !setup.iconv && req.charset.Some? && !NamesLatin1(req.charset.value) then Refused(OpNotSupported)
    else match SourceCharset(req, setup)
      case None => Ok(Some(Latin1Copy(memory, rsiz)))
      case Some(name) =>
        match setup.convert(name, req.text.value)
        case None => Refused(InvalidPacket)
        case Some(chars) => if |chars| == rsiz then Ok(Some(chars)) else Refused(InvalidPacket)
  }

  /** The packet buffer reaches as far as the ISO-8859-1 copy can read: the
      text starts at most 16 bytes in and the copy takes at most a display's
      width of bytes.  It also has room for one byte after the packet, where
      the charset name is terminated.  (The buffer in C holds 4100 bytes.) */
  predicate BufferCovers(content: seq<byte>, stale: seq<byte>, displaySize: nat) {
    1 <= |stale| && 16 + displaySize <= |content| + |stale|
  }

  /** The bytes after the packet once the handler has run its checks: a
      charset name, which ends the packet, gets its terminating NUL in the
      first of them. */
  function AfterPacket(req: WriteRequest, stale: seq<byte>): (r: seq<byte>)
    requires 1 <= |stale|
    ensures |r| == |stale| && r[1..] == stale[1..]
    ensures r[0] == if req.charset.Some? then 0 else stale[0]
  {
    if req.charset.Some? then [0] + stale[1..] else stale
  }

  /** The bytes from the start of a request's text on, in the buffer that
      holds the packet `content` followed by `stale`. */
  function TextMemory(req: WriteRequest, content: seq<byte>, stale: seq<byte>, displaySize: nat): (m: seq<byte>)
    requires BufferCovers(content, stale, displaySize)
    ensures |m| >= displaySize
  {
    (content + AfterPacket(req, stale))[TextStart(req)..]
  }

  /** Whether a WRITE packet gets through every check of handleWrite. */
  predicate WriteAccepted(s: Server, c: ConnId, content: seq<byte>, stale: seq<byte>, setup: TextSetup)
    requires c in s.conns && BufferCovers(content, stale, s.displaySize)
  {
    && |content| >= 4 && !s.conns[c].raw && Attached(s, c)
    && match ParseWrite(content, s.displaySize)
       case Malformed(_) => false
       case ClearWindow => true
       case Parsed(req, _, rsiz) => ConvertText(req, rsiz, setup, TextMemory(req, content, stale, s.displaySize)).Ok?
  }

  /** handleWrite: a packet of flags 0 alone marks the window empty; any
      other packet is checked field by field and, once its text is
      converted, stored into the window, which is then marked to be shown.
      A refused packet changes nothing. */
  function HandleWrite(s: Server, c: ConnId, content: seq<byte>, stale: seq<byte>, setup: TextSetup): (o: Outcome)
    requires c in s.conns && BufferCovers(content, stale, s.displaySize)
    requires Attached(s, c) ==> s.conns[c].window.Some? && Fits(s.conns[c].window.value, s.displaySize)
    ensures o.action == NoAction && o.s.ttys == s.ttys && o.s.notty == s.notty
    ensures o.s.conns.Keys == s.conns.Keys
    ensures forall d :: d in s.conns && d != c ==> o.s.conns[d] == s.conns[d]
    ensures o.reply == Silent <==> WriteAccepted(s, c, content, stale, setup)
    ensures o.reply != Silent ==> o.s == s
    ensures |content| < 4 ==> o.reply == Exception(InvalidPacket)
    ensures |content| >= 4 && (s.conns[c].raw || !Attached(s, c)) ==> o.reply == Error(IllegalInstruction)
    ensures o.reply == Silent ==>
      && o.s.conns[c] == s.conns[c].(window := o.s.conns[c].window, bufState := o.s.conns[c].bufState)
      && o.s.conns[c].window.Some? && Fits(o.s.conns[c].window.value, s.displaySize)
      && (o.s.conns[c].bufState == Empty <==> ParseWrite(content, s.displaySize).ClearWindow?)
  {
    var conn := s.conns[c];
    if |content| < 4 then Outcome(s, Exception(InvalidPacket), NoAction)
    else if conn.raw || !Attached(s, c) then Refuse(s, IllegalInstruction)
    else match ParseWrite(content, s.displaySize)
      case Malformed(code) => Outcome(s, Exception(code), NoAction)
      case ClearWindow => Outcome(Update(s, c, conn.(bufState := Empty)), Silent, NoAction)
      case Parsed(req, rbeg, rsiz) =>
        match ConvertText(req, rsiz, setup, TextMemory(req, content, stale, s.displaySize))
        case Refused(code) => Outcome(s, Exception(code), NoAction)
        case Ok(text) =>
          var w := ApplyWrite(conn.window.value, s.displaySize, req, rbeg, rsiz, text);
          Outcome(Update(s, c, conn.(window := Some(w), bufState := ToDisplay)), Silent, NoAction)
  }

  /** A WRITE keeps the server valid. */
  lemma HandleWriteValid(s: Server, c: ConnId, content: seq<byte>, stale: seq<byte>, setup: TextSetup)
    requires Valid(s) && c in s.conns && BufferCovers(content, stale, s.displaySize)
    ensures Attached(s, c) ==> s.conns[c].window.Some? && Fits(s.conns[c].window.value, s.displaySize)
    ensures Valid(HandleWrite(s, c, content, stale, setup).s)
  {
    assert ConnOk(s, c);
    var o := HandleWrite(s, c, content, stale, setup);
    if o.reply == Silent {
      UpdateValid(s, c, o.s.conns[c]);
      assert Update(s, c, o.s.conns[c]) == o.s;
    }
  }

  /** What the copy reads when a client's packet sits in the buffer: its
      text, the fields after the text, then the bytes beyond the packet. */
  lemma EncodedTextMemory(req: WriteRequest, stale: seq<byte>, displaySize: nat)
    requires (req.charset.Some? ==> |req.charset.value| < 256) && req.text.Some?
    requires BufferCovers(EncodeWrite(req), stale, displaySize)
    ensures TextMemory(req, EncodeWrite(req), stale, displaySize) == req.text.value + TailAnd(req) + AfterPacket(req, stale)
  {
    TextStartsAt(req);
    SliceOfAppend(EncodeWrite(req), AfterPacket(req, stale), TextStart(req));
  }

  lemma SliceOfAppend(a: seq<byte>, b: seq<byte>, k: nat)
    requires k <= |a|
    ensures (a + b)[k..] == a[k..] + b
  {
  }

  /** A client that writes text alone (no mask, no cursor) sees, on the
      cells of its region, the dots of the characters its text becomes,
      and on every other cell what it saw before; the cursor stays. */
  lemma WriteShowsText(s: Server, c: ConnId, req: WriteRequest, stale: seq<byte>, setup: TextSetup, chars: seq<char>,
                       dots: char -> byte, cursorShape: byte)
    requires Valid(s) && c in s.conns && !s.conns[c].raw && Attached(s, c)
    requires WellFormed(req, s.displaySize) && req.text.Some?
    requires req.andMask.None? && req.orMask.None? && req.cursor.None?
    requires BufferCovers(EncodeWrite(req), stale, s.displaySize)
    requires ConvertText(req, RegionSize(req, s.displaySize), setup, req.text.value + TailAnd(req) + AfterPacket(req, stale)) == Ok(Some(chars))
    ensures s.conns[c].window.Some? && Fits(s.conns[c].window.value, s.displaySize)
    ensures var o := HandleWrite(s, c, EncodeWrite(req), stale, setup);
      var w0 := s.conns[c].window.value;
      var rbeg, rsiz := RegionBegin(req), RegionSize(req, s.displaySize);
      && o.reply == Silent && o.s.conns[c].bufState == ToDisplay
      && o.s.conns[c].window.Some? && Fits(o.s.conns[c].window.value, s.displaySize)
      && 1 <= rbeg && rbeg - 1 + rsiz <= s.displaySize && |chars| == rsiz
      && ShowsTextOver(o.s.conns[c].window.value, w0, s.displaySize, rbeg, rsiz, chars, dots, cursorShape)
  {
    var ds := s.displaySize;
    var rbeg, rsiz := RegionBegin(req), RegionSize(req, ds);
    RegionWithinDisplay(req, ds);
    WriteStoredAs(s, c, req, stale, setup, chars);
    var w0 := s.conns[c].window.value;
    TextAloneShows(w0, ds, req, rbeg, rsiz, chars, dots, cursorShape);
    assert HandleWrite(s, c, EncodeWrite(req), stale, setup).s.conns[c].window == Some(ApplyWrite(w0, ds, req, rbeg, rsiz, Some(chars)));
  }

  /** The window a WRITE of a well-formed request with text leaves: the
      request applied to the old window, with the characters the text
      becomes. */
  lemma WriteStoredAs(s: Server, c: ConnId, req: WriteRequest, stale: seq<byte>, setup: TextSetup, chars: seq<char>)
    requires Valid(s) && c in s.conns && !s.conns[c].raw && Attached(s, c)
    requires WellFormed(req, s.displaySize) && req.text.Some?
    requires BufferCovers(EncodeWrite(req), stale, s.displaySize)
    requires RegionSize(req, s.displaySize) <= s.displaySize
    requires ConvertText(req, RegionSize(req, s.displaySize), setup, req.text.value + TailAnd(req) + AfterPacket(req, stale)) == Ok(Some(chars))
    ensures s.conns[c].window.Some? && Fits(s.conns[c].window.value, s.displaySize)
    ensures RegionAccepted(RegionBegin(req), RegionSize(req, s.displaySize), s.displaySize)
            || (RegionBegin(req) == 1 && RegionSize(req, s.displaySize) == s.displaySize)
    ensures |chars| == RegionSize(req, s.displaySize)
    ensures var o := HandleWrite(s, c, EncodeWrite(req), stale, setup);
      && o.reply == Silent && o.s.conns[c].bufState == ToDisplay
      && o.s.conns[c].window == Some(ApplyWrite(s.conns[c].window.value, s.displaySize, req,
                                                RegionBegin(req), RegionSize(req, s.displaySize), Some(chars)))
  {
    assert ConnOk(s, c);
    var ds := s.displaySize;
    WriteRoundTrip(req, ds);
    var rbeg, rsiz := RegionBegin(req), RegionSize(req, ds);
    var content := EncodeWrite(req);
    assert |content| >= 4;
    assert ParseWrite(content, ds) == Parsed(req, rbeg, rsiz);
    EncodedTextMemory(req, stale, ds);
  }

  /** With a charset to convert from, the region receives what iconv makes
      of the text, which must fill it exactly. */
  lemma WriteStored(s: Server, c: ConnId, req: WriteRequest, stale: seq<byte>, setup: TextSetup, chars: seq<char>)
    requires Valid(s) && c in s.conns && !s.conns[c].raw && Attached(s, c)
    requires WellFormed(req, s.displaySize) && req.text.Some?
    requires BufferCovers(EncodeWrite(req), stale, s.displaySize)
    requires SourceCharset(req, setup).Some?
    requires setup.convert(SourceCharset(req, setup).value, req.text.value) == Some(chars)
    requires |chars| == RegionSize(req, s.displaySize)
    ensures s.conns[c].window.Some? && Fits(s.conns[c].window.value, s.displaySize)
    ensures var o := HandleWrite(s, c, EncodeWrite(req), stale, setup);
      && o.reply == Silent && o.s.conns[c].bufState == ToDisplay
      && o.s.conns[c].window == Some(ApplyWrite(s.conns[c].window.value, s.displaySize, req,
                                                RegionBegin(req), RegionSize(req, s.displaySize), Some(chars)))
  {
    RegionWithinDisplay(req, s.displaySize);
    WriteStoredAs(s, c, req, stale, setup, chars);
  }

  /** The cells `at .. at + rsiz` of `w` show, one byte to a cell, the text
      `t` while it lasts and then the bytes `rest` that follow it. */
  predicate ShowsBytes(w: Window, at: nat, rsiz: nat, t: seq<byte>, rest: seq<byte>)
    requires at + rsiz <= |w.text| && rsiz <= |t| + |rest|
  {
    && (forall j :: at <= j < at + rsiz && j < at + |t| ==> w.text[j] as int == ByteValue(t[j - at]))
    && (forall j :: at + |t| <= j < at + rsiz ==> w.text[j] as int == ByteValue(rest[j - at - |t|]))
  }

  /** Without a charset to convert from, a well-formed WRITE stores the
      ISO-8859-1 reading of the `rsiz` bytes that start at the text, however
      short the text is: past the text's end it reads the fields after it
      and then whatever lies beyond the packet in the buffer, where a
      charset name has had its NUL stored. */
  lemma Latin1WriteStored(s: Server, c: ConnId, req: WriteRequest, stale: seq<byte>, setup: TextSetup)
    requires Valid(s) && c in s.conns && !s.conns[c].raw && Attached(s, c)
    requires WellFormed(req, s.displaySize) && req.text.Some?
    requires BufferCovers(EncodeWrite(req), stale, s.displaySize)
    requires SourceCharset(req, setup).None?
    requires !setup.iconv && req.charset.Some? ==> NamesLatin1(req.charset.value)
    ensures s.conns[c].window.Some? && Fits(s.conns[c].window.value, s.displaySize)
    ensures 1 <= RegionBegin(req) && RegionBegin(req) - 1 + RegionSize(req, s.displaySize) <= s.displaySize
    ensures RegionSize(req, s.displaySize) <= |req.text.value + TailAnd(req) + AfterPacket(req, stale)|
    ensures var o := HandleWrite(s, c, EncodeWrite(req), stale, setup);
      var rsiz := RegionSize(req, s.displaySize);
      && o.reply == Silent && o.s.conns[c].bufState == ToDisplay
      && o.s.conns[c].window == Some(ApplyWrite(s.conns[c].window.value, s.displaySize, req,
                                                RegionBegin(req), rsiz,
                                                Some(Latin1Copy(req.text.value + TailAnd(req) + AfterPacket(req, stale), rsiz))))
  {
    var ds := s.displaySize;
    var rbeg, rsiz := RegionBegin(req), RegionSize(req, ds);
    RegionWithinDisplay(req, ds);
    EncodedTextMemory(req, stale, ds);
    var memory := req.text.value + TailAnd(req) + AfterPacket(req, stale);
    var chars := Latin1Copy(memory, rsiz);
    assert ConvertText(req, rsiz, setup, memory) == Ok(Some(chars));
    WriteStoredAs(s, c, req, stale, setup, chars);
  }

  /** After an ISO-8859-1 copy of `rsiz` bytes that start with the text
      `t` and go on with `rest`, a region cell shows the text byte at its
      place while the text lasts, and past the text's end the byte of
      `rest` at its place. */
  lemma Latin1Region(w0: Window, ds: nat, req: WriteRequest, rbeg: nat, rsiz: nat, t: seq<byte>, rest: seq<byte>)
    requires Fits(w0, ds) && 1 <= rbeg && rbeg - 1 + rsiz <= ds && rsiz <= |t + rest|
    requires req.text.Some?
    requires req.andMask.Some? ==> |req.andMask.value| == rsiz
    requires req.orMask.Some? ==> |req.orMask.value| == rsiz
    requires req.cursor.Some? ==> req.cursor.value <= ds
    ensures var w := ApplyWrite(w0, ds, req, rbeg, rsiz, Some(Latin1Copy(t + rest, rsiz)));
      Fits(w, ds) && ShowsBytes(w, rbeg - 1, rsiz, t, rest)
  {
    var memory := t + rest;
    var w := ApplyWrite(w0, ds, req, rbeg, rsiz, Some(Latin1Copy(memory, rsiz)));
    forall j | rbeg - 1 <= j < rbeg - 1 + rsiz
      ensures w.text[j] as int == ByteValue(memory[j - (rbeg - 1)])
    {
    }
  }

  /** A WRITE of the five-byte text "hello", no region, no charset. */
  function HelloRequest(): WriteRequest {
    WriteRequest(None, Some([0x68, 0x65, 0x6C, 0x6C, 0x6F]), None, None, None, None)
  }

  /** Without iconv, "hello" written to a 40-cell display is accepted without
      complaint: its five bytes fill the first five cells, and the other 35
      cells get whatever the packet buffer holds after the packet. */
  lemma ShortTextReadsPastPacket(s: Server, c: ConnId, stale: seq<byte>, setup: TextSetup)
    requires Valid(s) && c in s.conns && !s.conns[c].raw && Attached(s, c)
    requires s.displaySize == 40 && |stale| >= 43 && !setup.iconv
    ensures BufferCovers(EncodeWrite(HelloRequest()), stale, 40)
    ensures var o := HandleWrite(s, c, EncodeWrite(HelloRequest()), stale, setup);
      && o.reply == Silent && o.s.conns[c].window.Some? && |o.s.conns[c].window.value.text| == 40
      && o.s.conns[c].window.value.text[..5] == "hello"
      && forall j :: 5 <= j < 40 ==> o.s.conns[c].window.value.text[j] as int == ByteValue(stale[j - 5])
  {
    var req := HelloRequest();
    HelloFields();
    Latin1WriteStored(s, c, req, stale, setup);
    var t := req.text.value;
    assert AfterPacket(req, stale) == stale;
    assert t + TailAnd(req) + AfterPacket(req, stale) == t + stale;
    Latin1Region(s.conns[c].window.value, 40, req, 1, 40, t, stale);
    HelloCells(ApplyWrite(s.conns[c].window.value, 40, req, 1, 40, Some(Latin1Copy(t + stale, 40))), t, stale);
  }

  lemma HelloFields()
    ensures var req := HelloRequest();
      && WellFormed(req, 40) && req.text.Some? && req.charset.None?
      && |EncodeWrite(req)| == 13 && TailAnd(req) == []
      && RegionBegin(req) == 1 && RegionSize(req, 40) == 40
  {
    var req := HelloRequest();
    assert |EncodeWrite(req)| == 13;
  }

  /** The cells of a 40-cell window that shows "hello" followed by the
      bytes `stale`. */
  lemma HelloCells(w: Window, t: seq<byte>, stale: seq<byte>)
    requires t == [0x68, 0x65, 0x6C, 0x6C, 0x6F] && |w.text| == 40 && |stale| >= 35
    requires ShowsBytes(w, 0, 40, t, stale)
    ensures w.text[..5] == "hello"
    ensures forall j :: 5 <= j < 40 ==> w.text[j] as int == ByteValue(stale[j - 5])
  {
    HelloPrefix(w.text, t);
  }

  lemma HelloPrefix(text: seq<char>, t: seq<byte>)
    requires t == [0x68, 0x65, 0x6C, 0x6C, 0x6F] && |text| >= 5
    requires forall j :: 0 <= j < 5 ==> text[j] as int == ByteValue(t[j])
    ensures text[..5] == "hello"
  {
    forall j | 0 <= j < 5 ensures text[j] == "hello"[j] {
      assert text[j] as int == ByteValue(t[j]);
    }
  }

  /** The region of a well-formed request lies on the display. */
  lemma RegionWithinDisplay(req: WriteRequest, displaySize: nat)
    requires WellFormed(req, displaySize)
    ensures 1 <= RegionBegin(req) && RegionBegin(req) - 1 + RegionSize(req, displaySize) <= displaySize
  {
  }

  /** A server without iconv refuses text in any charset whose name is not
      ISO-8859-1 with an OPNOTSUPP exception, and changes nothing. */
  lemma CharsetRefusedWithoutIconv(s: Server, c: ConnId, req: WriteRequest, stale: seq<byte>, setup: TextSetup)
    requires Valid(s) && c in s.conns && !s.conns[c].raw && Attached(s, c)
    requires WellFormed(req, s.displaySize) && req.text.Some?
    requires BufferCovers(EncodeWrite(req), stale, s.displaySize)
    requires !setup.iconv && req.charset.Some? && !NamesLatin1(req.charset.value)
    ensures s.conns[c].window.Some? && Fits(s.conns[c].window.value, s.displaySize)
    ensures HandleWrite(s, c, EncodeWrite(req), stale, setup) == Outcome(s, Exception(OpNotSupported), NoAction)
  {
    assert ConnOk(s, c);
    var ds := s.displaySize;
    WriteRoundTrip(req, ds);
    var content := EncodeWrite(req);
    assert |content| >= 4;
    assert ParseWrite(content, ds) == Parsed(req, RegionBegin(req), RegionSize(req, ds));
  }

  // ---------------------------------------------------------------------------
  // The driver-specific mode packet (checkDriverSpecificModePacket)
  // ---------------------------------------------------------------------------

  /** Checks the packet of ENTERRAWMODE and SUSPENDDRIVER: a magic word,
      then the driver's name with a length byte.  None when it is accepted. */
  function CheckModePacket(content: seq<byte>, driver: Driver): (r: Option<ErrorCode>)
    ensures r.Some? ==> r.value == InvalidPacket || r.value == InvalidParameter
  {
    if |content| <= 4 then Some(InvalidPacket)
    else if BigEndian(content[..4]) != DeviceMagic then Some(InvalidParameter)
    else
      var len := ByteValue(content[4]);
      if !(len <= MaxNameLength && len == |driver.name|) then Some(InvalidParameter)
      else if |content| - 5 != len then Some(InvalidPacket)
      else if content[5..] != driver.name then Some(InvalidParameter)
      else None
  }

  /** The mode packet a client sends for the driver named `name`. */
  function ModePacket(name: seq<byte>): seq<byte>
    requires |name| < 256
  {
    WordBytes(DeviceMagic) + ([ToByte(|name|)] + name)
  }

  /** The check accepts exactly the mode packet naming the server's driver,
      whose name must be at most 31 bytes long. */
  lemma ModePacketExact(content: seq<byte>, driver: Driver)
    ensures CheckModePacket(content, driver).None? <==>
      |driver.name| <= MaxNameLength && content == ModePacket(driver.name)
  {
    if |driver.name| <= MaxNameLength && content == ModePacket(driver.name) {
      ModePacketAccepted(driver);
    }
    if CheckModePacket(content, driver).None? {
      ModePacketOnly(content, driver);
    }
  }

  lemma ModePacketAccepted(driver: Driver)
    requires |driver.name| <= MaxNameLength
    ensures CheckModePacket(ModePacket(driver.name), driver).None?
  {
    var b := ToByte(|driver.name|);
    ValueOfToByte(|driver.name|);
    var word := WordBytes(DeviceMagic);
    WordRoundTrip(DeviceMagic);
    var content := ModePacket(driver.name);
    assert content == word + ([b] + driver.name);
    ModePacketFields(word, b, driver.name);
    assert BigEndian(content[..4]) == DeviceMagic;
    ModeFieldsAccepted(content, driver);
  }

  /** Where the fields of a mode packet lie. */
  lemma ModePacketFields(word: seq<byte>, b: byte, name: seq<byte>)
    requires |word| == 4
    ensures var content := word + ([b] + name);
      && |content| == 5 + |name| && content[..4] == word
      && content[4] == b && content[5..] == name
  {
  }

  lemma ModeFieldsAccepted(content: seq<byte>, driver: Driver)
    requires |content| > 4 && BigEndian(content[..4]) == DeviceMagic
    requires ByteValue(content[4]) == |driver.name| <= MaxNameLength
    requires |content| - 5 == |driver.name| && content[5..] == driver.name
    ensures CheckModePacket(content, driver).None?
  {
  }

  lemma ModePacketOnly(content: seq<byte>, driver: Driver)
    requires CheckModePacket(content, driver).None?
    ensures |driver.name| <= MaxNameLength && content == ModePacket(driver.name)
  {
    MagicWord(content[..4]);
    PacketFromFields(content, content[..4], driver.name);
  }

  lemma PacketFromFields(content: seq<byte>, word: seq<byte>, name: seq<byte>)
    requires |content| > 4 && content[..4] == word
    requires ByteValue(content[4]) == |name| && content[5..] == name
    ensures content == word + ([ToByte(|name|)] + name)
  {
    ToByteOfValue(content[4]);
    assert content == content[..4] + ([content[4]] + content[5..]);
  }

  /** The only four bytes that read as the magic word. */
  lemma MagicWord(word: seq<byte>)
    requires |word| == 4 && BigEndian(word) == DeviceMagic
    ensures word == WordBytes(DeviceMagic)
  {
    BigEndianInverse(word);
  }

  // ---------------------------------------------------------------------------
  // Raw mode (handleEnterRawMode, handleLeaveRawMode, handlePacket)
  // ---------------------------------------------------------------------------

  /** handleEnterRawMode: the connection takes the driver for raw packets,
      unless it is already in raw mode, the packet does not name the driver,
      the driver has no raw mode, the driver is held by anyone (raw or
      suspend), or a stopped driver cannot be resumed (`driverReady`
      false).  On success a stopped driver has been resumed. */
  function HandleEnterRaw(s: Server, c: ConnId, content: seq<byte>, driverReady: bool): (o: Outcome)
    requires c in s.conns
    ensures o.s.ttys == s.ttys && o.s.notty == s.notty && o.s.suspendHolder == s.suspendHolder
    ensures o.action == (if o.reply == Ack then ResumeIfStopped else NoAction)
    ensures o.reply == Ack <==>
      && !s.conns[c].raw && CheckModePacket(content, s.driver).None? && s.driver.rawCapable
      && s.rawHolder.None? && s.suspendHolder.None? && driverReady
    ensures o.reply == Ack ==> o.s == s.(conns := s.conns[c := s.conns[c].(raw := true)], rawHolder := Some(c))
    ensures o.reply != Ack ==> o.s == s && o.reply.Error?
    ensures o.reply == Error(DeviceBusy) <==>
      && !s.conns[c].raw && CheckModePacket(content, s.driver).None? && s.driver.rawCapable
      && (s.rawHolder.Some? || s.suspendHolder.Some?)
  {
    if s.conns[c].raw then Refuse(s, IllegalInstruction)
    else match CheckModePacket(content, s.driver)
      case Some(code) => Refuse(s, code)
      case None =>
        if !s.driver.rawCapable then Refuse(s, OpNotSupported)
        else if s.rawHolder.Some? || s.suspendHolder.Some? then Refuse(s, DeviceBusy)
        else if !driverReady then Refuse(s, DriverError)
        else Outcome(s.(conns := s.conns[c := s.conns[c].(raw := true)], rawHolder := Some(c)), Ack, ResumeIfStopped)
  }

  /** handleLeaveRawMode: a connection in raw mode gives the driver back. */
  function HandleLeaveRaw(s: Server, c: ConnId): (o: Outcome)
    requires c in s.conns
    ensures o.action == NoAction && o.s.ttys == s.ttys && o.s.notty == s.notty && o.s.suspendHolder == s.suspendHolder
    ensures o.reply == Ack <==> s.conns[c].raw
    ensures o.reply == Ack ==> o.s == s.(conns := s.conns[c := s.conns[c].(raw := false)], rawHolder := None)
    ensures o.reply != Ack ==> o == Refuse(s, IllegalInstruction)
  {
    if !s.conns[c].raw then Refuse(s, IllegalInstruction)
    else Outcome(s.(conns := s.conns[c := s.conns[c].(raw := false)], rawHolder := None), Ack, NoAction)
  }

  /** handlePacket: in raw mode the packet goes to the driver as it is. */
  function HandleRawPacket(s: Server, c: ConnId, content: seq<byte>): (o: Outcome)
    requires c in s.conns
    ensures o.s == s
    ensures s.conns[c].raw ==> o.reply == Silent && o.action == SendRaw(content)
    ensures !s.conns[c].raw ==> o.reply == Exception(IllegalInstruction) && o.action == NoAction
  {
    if !s.conns[c].raw then Outcome(s, Exception(IllegalInstruction), NoAction)
    else Outcome(s, Silent, SendRaw(content))
  }

  /** Setting or clearing one connection's raw or suspend flag together with
      its holder keeps the server valid. */
  lemma HolderChangeValid(s: Server, s': Server, c: ConnId)
    requires Valid(s) && c in s.conns
    requires s'.ttys == s.ttys && s'.notty == s.notty && s'.unauth == s.unauth && s'.nextId == s.nextId
    requires s'.displaySize == s.displaySize && s'.columns == s.columns && s'.rows == s.rows && s'.driver == s.driver
    requires s'.conns.Keys == s.conns.Keys
    requires forall d :: d in s.conns && d != c ==> s'.conns[d] == s.conns[d]
    requires s'.conns[c] == s.conns[c].(raw := s'.conns[c].raw, suspend := s'.conns[c].suspend)
    requires s'.conns[c].raw || s'.conns[c].suspend ==> s.conns[c].auth == Authorized
    requires HoldersValid(s')
    ensures Valid(s')
  {
    assert s'.conns == s.conns[c := s'.conns[c]];
    UnauthorizedSameAuth(s.conns, c, s'.conns[c]);
    forall d | d in s'.conns ensures ConnOk(s', d) {
      assert ConnOk(s, d);
    }
  }

  /** Entering and leaving raw mode keep the server valid (handlers run only
      for authorized connections). */
  lemma RawValid(s: Server, c: ConnId, content: seq<byte>, driverReady: bool)
    requires Valid(s) && c in s.conns && s.conns[c].auth == Authorized
    ensures Valid(HandleEnterRaw(s, c, content, driverReady).s)
    ensures Valid(HandleLeaveRaw(s, c).s)
  {
    EnterRawValid(s, c, content, driverReady);
    LeaveRawValid(s, c);
  }

  lemma EnterRawValid(s: Server, c: ConnId, content: seq<byte>, driverReady: bool)
    requires Valid(s) && c in s.conns && s.conns[c].auth == Authorized
    ensures Valid(HandleEnterRaw(s, c, content, driverReady).s)
  {
    var o := HandleEnterRaw(s, c, content, driverReady);
    if o.reply == Ack {
      HolderChangeValid(s, o.s, c);
    }
  }

  lemma LeaveRawValid(s: Server, c: ConnId)
    requires Valid(s) && c in s.conns && s.conns[c].auth == Authorized
    ensures Valid(HandleLeaveRaw(s, c).s)
  {
    var l := HandleLeaveRaw(s, c);
    if l.reply == Ack {
      HolderChangeValid(s, l.s, c);
    }
  }

  /** Leaving raw mode right after entering it gives the server back. */
  lemma RawThenLeave(s: Server, c: ConnId, content: seq<byte>, driverReady: bool)
    requires Valid(s) && c in s.conns
    requires HandleEnterRaw(s, c, content, driverReady).reply == Ack
    ensures var o := HandleLeaveRaw(HandleEnterRaw(s, c, content, driverReady).s, c);
      o.reply == Ack && o.s == s
  {
    assert !s.conns[c].raw && s.rawHolder.None?;
    var s2 := HandleLeaveRaw(HandleEnterRaw(s, c, content, driverReady).s, c).s;
    assert s2.conns == s.conns;
  }

  // ---------------------------------------------------------------------------
  // Suspending the driver (handleSuspendDriver, handleResumeDriver)
  // ---------------------------------------------------------------------------

  /** handleSuspendDriver: the connection suspends the driver, unless the
      packet does not name the driver, it has already suspended it, or the
      driver is held by anyone. */
  function HandleSuspend(s: Server, c: ConnId, content: seq<byte>): (o: Outcome)
    requires c in s.conns
    ensures o.s.ttys == s.ttys && o.s.notty == s.notty && o.s.rawHolder == s.rawHolder
    ensures o.reply == Ack <==>
      CheckModePacket(content, s.driver).None? && !s.conns[c].suspend && s.rawHolder.None? && s.suspendHolder.None?
    ensures o.reply == Ack ==>
      o.s == s.(conns := s.conns[c := s.conns[c].(suspend := true)], suspendHolder := Some(c))
      && o.action == SuspendIfRunning
    ensures o.reply != Ack ==> o.s == s && o.reply.Error? && o.action == NoAction
  {
    match CheckModePacket(content, s.driver)
    case Some(code) => Refuse(s, code)
    case None =>
      if s.conns[c].suspend then Refuse(s, IllegalInstruction)
      else if s.suspendHolder.Some? || s.rawHolder.Some? then Refuse(s, DeviceBusy)
      else Outcome(s.(conns := s.conns[c := s.conns[c].(suspend := true)], suspendHolder := Some(c)),
                   Ack, SuspendIfRunning)
  }

  /** handleResumeDriver: the connection that suspended the driver resumes it. */
  function HandleResume(s: Server, c: ConnId): (o: Outcome)
    requires c in s.conns
    ensures o.s.ttys == s.ttys && o.s.notty == s.notty && o.s.rawHolder == s.rawHolder
    ensures o.reply == Ack <==> s.conns[c].suspend
    ensures o.reply == Ack ==>
      o.s == s.(conns := s.conns[c := s.conns[c].(suspend := false)], suspendHolder := None)
      && o.action == ResumeIfStopped
    ensures o.reply != Ack ==> o == Refuse(s, IllegalInstruction)
  {
    if !s.conns[c].suspend then Refuse(s, IllegalInstruction)
    else Outcome(s.(conns := s.conns[c := s.conns[c].(suspend := false)], suspendHolder := None), Ack, ResumeIfStopped)
  }

  lemma SuspendValid(s: Server, c: ConnId, content: seq<byte>)
    requires Valid(s) && c in s.conns && s.conns[c].auth == Authorized
    ensures Valid(HandleSuspend(s, c, content).s)
    ensures Valid(HandleResume(s, c).s)
  {
    SuspendStepValid(s, c, content);
    ResumeStepValid(s, c);
  }

  lemma SuspendStepValid(s: Server, c: ConnId, content: seq<byte>)
    requires Valid(s) && c in s.conns && s.conns[c].auth == Authorized
    ensures Valid(HandleSuspend(s, c, content).s)
  {
    var o := HandleSuspend(s, c, content);
    if o.reply == Ack {
      HolderChangeValid(s, o.s, c);
    }
  }

  lemma ResumeStepValid(s: Server, c: ConnId)
    requires Valid(s) && c in s.conns && s.conns[c].auth == Authorized
    ensures Valid(HandleResume(s, c).s)
  {
    var r := HandleResume(s, c);
    if r.reply == Ack {
      HolderChangeValid(s, r.s, c);
    }
  }

  /** Resuming right after suspending gives the server back, and the
      driver is asked to stop and then to restart. */
  lemma SuspendThenResume(s: Server, c: ConnId, content: seq<byte>)
    requires Valid(s) && c in s.conns
    requires HandleSuspend(s, c, content).reply == Ack
    ensures var o := HandleSuspend(s, c, content);
      var r := HandleResume(o.s, c);
      o.action == SuspendIfRunning && r.reply == Ack && r.action == ResumeIfStopped && r.s == s
  {
    var s2 := HandleResume(HandleSuspend(s, c, content).s, c).s;
    assert s2.conns == s.conns;
  }

  /** At no time do two connections hold the driver, whichever way: a valid
      server has at most one holder, and each handler keeps it so. */
  lemma SingleHolder(s: Server, c: ConnId, d: ConnId)
    requires Valid(s) && c in s.conns && d in s.conns
    requires (s.conns[c].raw || s.conns[c].suspend) && (s.conns[d].raw || s.conns[d].suspend)
    ensures c == d
  {
  }
}
