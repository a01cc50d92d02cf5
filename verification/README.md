# A verified model of BRLTTY's BrlAPI server and its helpers

This project models, in Dafny, the core of the braille stack that BrailleBack
ships: BRLTTY's BrlAPI server, the data-file and option parsers, the generic
queue, keyboard properties, two braille drivers (Alva and HandyTech), the
`brltest` program, and BrailleBack's own string helpers. Every operation is
a pure function, or a short method over immutable values, and carries a
contract stating what the C or Java code promises. Lemmas relate the
operations to their inverses, to reference definitions and to the
invariants they preserve.

What each module covers:

- `BrlapiFramer` models the per-connection packet reader of the BrlAPI
  server (`readPacket`, `resetPacket`). It is a three-state machine: reading
  the header, reading the content, discarding. It is driven by a sequence of
  socket read outcomes with arbitrary chunk sizes.
- `BrlapiProtocol`, `BrlapiServer` and `BrlapiTty` hold the server state:
  - the tree of ttys, each with its focus, its children in list order and
    its ring of connections;
  - the ring of connections that are not in tty mode;
  - the connections themselves;
  - the two holders of the driver (raw mode and suspend).
  They also define the focus-following searches `whoFillsTty` and
  `whoGetsKey`, and `broadcastKey`.
- `BrlapiKeys` covers key codes:
  - the 64-bit client key code of a driver key;
  - its KEY packet;
  - the key-range packets, including their size check as the C expression
    actually parses;
  - the accepted-key edits;
  - the default key set a connection gets in command mode.
- `BrlapiWindow` models a client's braille window, the WRITE packet parser
  and the dot composition of `getDots`.
- `BrlapiHandlers` and `BrlapiDevice` model the request handlers:
  - enter and leave tty mode, focus, key ranges;
  - write;
  - raw mode, its packets, suspend and resume.
  Each handler is one atomic step returning the reply it sends and what it
  asks of the driver.
- `BrlapiSession` models the life of a connection:
  - admission under the quota of five unauthorized connections;
  - the version and credential handshake;
  - request dispatch;
  - the release of what a vanishing client held;
  - eviction of silent unauthorized connections after 30 seconds;
  - reclamation of empty ttys.
- `BrlapiCore` models what the server does for BRLTTY's core: `api_writeWindow`
  gating, `api_flush`, key and command routing, and the offline/no-op toggle.
- `DataFile` models the data-file tokenizer of `datafile.c`:
  - dot numbers and dot bits;
  - keywords, digit classes and operand scanning;
  - the escape grammar of `parseDataString`;
  - the scoped variables.
- `Parse` models `parse.c`:
  - `splitString`, `joinStrings` and `rescaleInteger`, with C's truncating
    division;
  - the integer, choice, flag, yes/no and log-level validators;
  - `parseParameters` and `getParameters`.
- `Kbd` models keyboard-property parsing and matching (`kbd.c`).
- `Queue` models `queue.c` as the sequence of elements from the head, with
  comparator-ordered insertion, find, process, delete and requeue.
- `Alva` models the Alva driver:
  - the three packet recognisers;
  - the cell packets of each protocol;
  - the status/text layout;
  - routing-key arithmetic.
- `HandyTech` and `HandyTechDriver` model the HandyTech driver:
  - `brl_readPacket` framing;
  - the extended packet;
  - key bytes;
  - the write/acknowledge state machine of `setState`, `updateCells` and
    `brl_readCommand`.
- `BrlTest` models `message` chunking and driver-argument matching in
  `brltest.c`.
- `StringUtils` models BrailleBack's `appendWithSpaces`,
  `appendWithSeparators` and `endsWithSpace`.

Some code is not shown and is taken as a parameter:

- `convertCharacterToDots`;
- `brlapiserver_getKeyrangeMask`;
- `cmdBrlttyToBrlapi`;
- the driver's `reset`, `writePacket` and `readCommand`;
- charset conversion;
- the clock;
- socket reads.

Where the code departs from what a reader might expect, the model follows
the code:

- a packet the reader is discarding never completes;
- the key-range size check rejects only odd sizes;
- the flood-warning counter is reset only when the server starts;
- a WRITE whose text is copied as ISO-8859-1 (no iconv, or no charset to
  convert from) copies as many bytes as the region has cells, whatever the
  text's length. A short text thus fills the rest of the region from the
  later fields and from the buffer beyond the packet, which `stale` models.
  The byte right after a charset name reads as the NUL the handler stores
  there.

The two exceptions are the faults listed under "## Findings". Each is
modelled as written in a member of its own, with a lemma that exhibits it.
The rest of the server model uses the corrected behaviour:

- the WRITE parser uses the intended region check;
- the dispatcher uses the enter-tty handler that does not free the window
  of a refused client: the client stays attached with a fresh blank window.

"## Left out" names the members this affects.

## Model

| member | source | states |
|---|---|---|
| BrlapiKeys.KeyEventCode | braille/service/jni/brlttywrapper/brltty/Programs/brlapi_server.c:2393-2396 | the client code carries the key set in bits 8..15, the key in bits 0..7, bit 63 set exactly when `press` is odd, and no other bit |
| BrlapiKeys.KeyPacketRoundTrip | braille/service/jni/brlttywrapper/brltty/Programs/brlapi_server.c:403-409 | the KEY packet's two network-order 32-bit halves read back, as the key-range handler reads codes, to the same 64-bit code |
| BrlapiKeys.AcceptsAppend | braille/service/jni/brlttywrapper/brltty/Programs/brlapi_server.c:932-933 | a later accept or ignore range decides the codes it covers and leaves every other code's acceptance as it was |
| BrlapiKeys.ParseKeyRanges | braille/service/jni/brlttywrapper/brltty/Programs/brlapi_server.c:919-931 | a key-range packet is rejected exactly when its size is odd; otherwise it yields one range per whole 16 bytes |
| BrlapiKeys.KeyRangesRoundTrip | braille/service/jni/brlttywrapper/brltty/Programs/brlapi_server.c:927-931 | ranges a client encodes are decoded to the same ranges, trailing bytes short of a range being ignored |
| BrlapiKeys.RangeEdits | braille/service/jni/brlttywrapper/brltty/Programs/brlapi_server.c:932-933 | one edit per range, in order, with the range's bounds, accepting for ACCEPTKEYRANGES and ignoring for IGNOREKEYRANGES |
| BrlapiKeys.InitializeAcceptedKeys | braille/service/jni/brlttywrapper/brltty/Programs/brlapi_server.c:2181-2268 | key-code mode adds nothing; command mode succeeds exactly when every mask resolves and then appends accept-all followed by one ignore per reserved command |
| BrlapiKeys.IgnoreReserved | braille/service/jni/brlttywrapper/brltty/Programs/brlapi_server.c:2251-2264 | the ignore loop succeeds exactly when every reserved command's mask resolves, appending one ignore edit per command |
| BrlapiKeys.CommandRange | braille/service/jni/brlttywrapper/brltty/Programs/brlapi_server.c:2256-2261 | a reserved command's ignore range exists exactly when its mask resolves and starts at the command's code |
| BrlapiKeys.DefaultCommandKeys | braille/service/jni/brlttywrapper/brltty/Programs/brlapi_server.c:2181-2268 | after command-mode initialisation a code is accepted exactly when accept-all would accept it and it is none of the reserved commands |
| BrlapiKeys.IgnoreReservedAccepts | braille/service/jni/brlttywrapper/brltty/Programs/brlapi_server.c:2251-2264 | after the reserved ignores a code is accepted exactly when it was before and is not a reserved command with any argument |
| BrlapiFramer.Reset | braille/service/jni/brlttywrapper/brltty/Programs/brlapi_server.c:413-429 | a reset reader is in step with no bytes taken: reading the header from its start |
| BrlapiFramer.AbsorbKeepsInv | braille/service/jni/brlttywrapper/brltty/Programs/brlapi_server.c:476-497 | each read's bookkeeping keeps the reader in step with the bytes taken, and a packet is reported, with the reader reset, exactly when those bytes form one complete packet |
| BrlapiFramer.ReadPacketSound | braille/service/jni/brlttywrapper/brltty/Programs/brlapi_server.c:448-517 | whatever the read outcomes, a call takes a prefix of the input; a reported packet is exactly the frame of the bytes taken since the reset |
| BrlapiFramer.FrameIsDetermined | braille/service/jni/brlttywrapper/brltty/Programs/brlapi_server.c:477-489 | two frames that both begin a byte stream coincide: the size word fixes the length |
| BrlapiFramer.ChunkingIndependence | braille/service/jni/brlttywrapper/brltty/Programs/brlapi_server.c:448-517 | however the socket splits the bytes into reads, two fresh readers that complete a packet report the same packet and leave the same bytes |
| BrlapiFramer.DiscardingNeverCompletes | braille/service/jni/brlttywrapper/brltty/Programs/brlapi_server.c:490-493 | once discarding an oversized packet, no sequence of read outcomes makes the reader report a packet |
| BrlapiFramer.DiscardedPacketEndsConnection | braille/service/jni/brlttywrapper/brltty/Programs/brlapi_server.c:466-493 | after an oversized packet is skipped the reader asks for zero bytes and reports end of file (-2) |
| BrlapiFramer.FrameIsRead | braille/service/jni/brlttywrapper/brltty/Programs/brlapi_server.c:448-517 | a well-formed packet handed over as header then content is reported exactly, leaving the following bytes |
| BrlapiFramer.EmptyPacketEndsAtHeader | braille/service/jni/brlttywrapper/brltty/Programs/brlapi_server.c:477-481 | a packet of size 0 is complete as soon as its header is |
| BrlapiServer.StartValid | braille/service/jni/brlttywrapper/brltty/Programs/brlapi_server.c:2734-2744 | the server starts valid: both rings empty, no holder, no connection, the tree root unfocused |
| BrlapiServer.Placement | braille/service/jni/brlttywrapper/brltty/Programs/brlapi_server.c:664-692 | in a valid state each connection sits in exactly one ring, the tree's or notty's, and no ring holds an unknown connection |
| BrlapiServer.UnauthorizedAuthorize | braille/service/jni/brlttywrapper/brltty/Programs/brlapi_server.c:1202 | authorizing a waiting connection removes it from the unauthorized set, whose size drops by one |
| BrlapiServer.UnauthorizedAdd | braille/service/jni/brlttywrapper/brltty/Programs/brlapi_server.c:2154 | a fresh unauthorized connection joins the unauthorized set, whose size grows by one |
| BrlapiServer.UnauthorizedRemove | braille/service/jni/brlttywrapper/brltty/Programs/brlapi_server.c:649-653 | freeing a connection removes it from the unauthorized set, which shrinks exactly when it was not authorized |
| BrlapiSession.Admit | braille/service/jni/brlttywrapper/brltty/Programs/brlapi_server.c:2136-2157 | a new connection is refused with a CONNREFUSED error exactly when five are already unauthorized (only the warning counter changes); otherwise it is created, counted, put at the front of notty and greeted with a four-byte VERSION packet |
| BrlapiSession.GreetingMatchesHandshake | braille/service/jni/brlttywrapper/brltty/Programs/brlapi_server.c:1170-1195 | the VERSION greeting of an admitted connection carries the version the handshake checks, so a client that sends it back passes |
| BrlapiSession.AdmitValid | braille/service/jni/brlttywrapper/brltty/Programs/brlapi_server.c:2136-2157 | admission keeps the server valid and the unauthorized count within the quota |
| BrlapiSession.Discard | braille/service/jni/brlttywrapper/brltty/Programs/brlapi_server.c:694-704 | removeFreeConnection unlinks the connection from its ring, forgets it and uncounts it when it was not authorized |
| BrlapiSession.DiscardValid | braille/service/jni/brlttywrapper/brltty/Programs/brlapi_server.c:694-704 | removing a connection that holds neither raw mode nor the suspension keeps the server valid |
| BrlapiSession.HandleUnauthorized | braille/service/jni/brlttywrapper/brltty/Programs/brlapi_server.c:1180-1269 | the connection is dropped exactly when the first packet is not a VERSION of the right version or the second is not AUTH; it becomes authorized exactly when not dropped and the peer or the credentials are accepted, the count dropping then |
| BrlapiSession.HandleUnauthorizedValid | braille/service/jni/brlttywrapper/brltty/Programs/brlapi_server.c:1180-1269 | the handshake keeps the server valid, the count following the unauthorized connections |
| BrlapiSession.Evict | braille/service/jni/brlttywrapper/brltty/Programs/brlapi_server.c:1937 | a connection with nothing to read is removed exactly when it is unauthorized and more than 30 seconds old, and nothing else changes |
| BrlapiSession.EvictValid | braille/service/jni/brlttywrapper/brltty/Programs/brlapi_server.c:1937-1941 | the timeout eviction keeps the server valid |
| BrlapiSession.Dispatch | braille/service/jni/brlttywrapper/brltty/Programs/brlapi_server.c:1334-1352 | a packet type without a handler (VERSION, AUTH, unknown) gets an UNKNOWN_INSTRUCTION exception and nothing changes |
| BrlapiSession.DispatchValid | braille/service/jni/brlttywrapper/brltty/Programs/brlapi_server.c:1334-1352 | when the key masks resolve, every handler of an authorized connection keeps the server valid, with the enter-tty handler corrected not to free the fresh blank window of a refused client |
| BrlapiSession.Release | braille/service/jni/brlttywrapper/brltty/Programs/brlapi_server.c:1284-1323 | on EOF or a read error a raw holder is cleared and the driver reset, or restarted exactly when there is no reset or it fails; otherwise a suspend holder is cleared and the driver resumed, then reset exactly when it has a reset; tty mode is left; every other connection is untouched |
| BrlapiSession.ReleaseValid | braille/service/jni/brlttywrapper/brltty/Programs/brlapi_server.c:1284-1323 | the release on disconnect keeps the server valid |
| BrlapiSession.Serve | braille/service/jni/brlttywrapper/brltty/Programs/brlapi_server.c:1275-1333 | a closed connection is always removed, and a removed connection holds neither raw mode nor the suspension |
| BrlapiSession.ServeValid | braille/service/jni/brlttywrapper/brltty/Programs/brlapi_server.c:1924-1943 | when the key masks resolve, the server stays valid whatever arrives on a connection, with the corrected enter-tty handler |
| BrlapiSession.ReclaimValid | braille/service/jni/brlttywrapper/brltty/Programs/brlapi_server.c:1946-1959 | after a reclamation pass the server is still valid and every tty left under the root holds a connection somewhere |
| BrlapiTty.NewTty | braille/service/jni/brlttywrapper/brltty/Programs/brlapi_server.c:706-727 | a new tty has the given number, focus -1, an empty ring and no children |
| BrlapiTty.FirstConn | braille/service/jni/brlttywrapper/brltty/Programs/brlapi_server.c:2301-2302 | the result is the first connection in ring order satisfying the test, and none exactly when no connection does |
| BrlapiTty.FocusedChild | braille/service/jni/brlttywrapper/brltty/Programs/brlapi_server.c:2306-2307 | the descent takes the first child whose number equals the focus, or the first child when the focus is -1, and none when no child matches |
| BrlapiTty.FocusPath | braille/service/jni/brlttywrapper/brltty/Programs/brlapi_server.c:2306-2310 | the ttys the focus leads through start at the tty, each next one the focused child of the previous, and the last has no focused child |
| BrlapiTty.RouteIsDeepestPick | braille/service/jni/brlttywrapper/brltty/Programs/brlapi_server.c:2297-2311 | routing picks what the deepest tty on the focus path that has a candidate picks; shallower ttys only serve as fallbacks |
| BrlapiTty.RouteSound | braille/service/jni/brlttywrapper/brltty/Programs/brlapi_server.c:2339-2360 | a routed connection passes the test and belongs to the subtree |
| BrlapiTty.Filter | braille/service/jni/brlttywrapper/brltty/Programs/brlapi_server.c:2365-2369 | the connections of a ring that pass the test are exactly those kept |
| BrlapiTty.Broadcast | braille/service/jni/brlttywrapper/brltty/Programs/brlapi_server.c:2362-2373 | broadcastKey reaches exactly the connections of the subtree that pass the test, focus notwithstanding |
| BrlapiTty.Remove | braille/service/jni/brlttywrapper/brltty/Programs/brlapi_server.c:680-684 | unlinking takes the connection out of its ring and leaves the rest |
| BrlapiTty.AttachAt | braille/service/jni/brlttywrapper/brltty/Programs/brlapi_server.c:664-670 | linking puts the connection at the front of the chosen ring and leaves every other ring and the path's numbers as they were |
| BrlapiTty.SetFocusAt | braille/service/jni/brlttywrapper/brltty/Programs/brlapi_server.c:890 | setting a tty's focus changes nothing else: its ring, the path's numbers and the tree's connections stay |
| BrlapiTty.ChildNumbered | braille/service/jni/brlttywrapper/brltty/Programs/brlapi_server.c:813 | the result is the first child with the number, and none exactly when no child has it |
| BrlapiTty.Walk | braille/service/jni/brlttywrapper/brltty/Programs/brlapi_server.c:812-818 | the walk follows the longest existing prefix of the path, each step the first child with that number, and stops only where no child has the next number |
| BrlapiTty.EnsurePathTarget | braille/service/jni/brlttywrapper/brltty/Programs/brlapi_server.c:812-852 | after the walk and the creation of the missing suffix, the target is a tty reached through ttys numbered exactly as the path |
| BrlapiTty.EnsurePathEffect | braille/service/jni/brlttywrapper/brltty/Programs/brlapi_server.c:819-852 | an existing path leaves the tree as it was; otherwise only connection-free ttys are added: the new chain becomes the first child of the deepest existing tty, its last tty fresh |
| BrlapiTty.PruneSound | braille/service/jni/brlttywrapper/brltty/Programs/brlapi_server.c:1946-1959 | a tty is freed exactly when no connection lies in its subtree; what is kept holds the same connections in the same order and no empty tty |
| BrlapiTty.ReclaimSound | braille/service/jni/brlttywrapper/brltty/Programs/brlapi_server.c:1924-1960 | a pass keeps the root and every connection in order and frees every connection-free tty below it |
| BrlapiTty.ReclaimIdempotent | braille/service/jni/brlttywrapper/brltty/Programs/brlapi_server.c:1952-1959 | a second reclamation pass finds nothing more to free |
| BrlapiHandlers.HandleGetDriverName | braille/service/jni/brlttywrapper/brltty/Programs/brlapi_server.c:755-767 | a connection outside raw mode sending an empty packet gets the driver's name with its NUL; a packet with content is refused as invalid; the state never changes |
| BrlapiHandlers.HandleGetDisplaySize | braille/service/jni/brlttywrapper/brltty/Programs/brlapi_server.c:769-775 | the display size is answered exactly for an empty packet outside raw mode, anything else is an error, and the state never changes |
| BrlapiHandlers.DisplaySizeAnswer | braille/service/jni/brlttywrapper/brltty/Programs/brlapi_server.c:769-775 | the answer is eight bytes from which a client reads back the columns and the rows as big-endian words |
| BrlapiHandlers.PathRoundTrip | braille/service/jni/brlttywrapper/brltty/Programs/brlapi_server.c:792-795 | the tty numbers written as 32-bit big-endian words are read back unchanged |
| BrlapiHandlers.EnterTtyRoundTrip | braille/service/jni/brlttywrapper/brltty/Programs/brlapi_server.c:788-802 | every request a client library can express (a path and a name of at most the maximum length) is parsed back exactly, whatever the buffer holds after the packet |
| BrlapiHandlers.NameMode | braille/service/jni/brlttywrapper/brltty/Programs/brlapi_server.c:796-802 | the empty name asks for commands, the driver's own name asks for key codes when the driver can give them, and any other name is an error |
| BrlapiHandlers.JoinTty | braille/service/jni/brlttywrapper/brltty/Programs/brlapi_server.c:811-880 | joining changes only the connection's record and takes it out of the list of connections without a tty; modes, holders and counters stay |
| BrlapiHandlers.JoinTtyPlace | braille/service/jni/brlttywrapper/brltty/Programs/brlapi_server.c:872-880 | after joining, the connection is first in the ring of the tty numbered as the path, out of the no-tty list, and the tree holds it once more than before |
| BrlapiHandlers.JoinTtyValid | braille/service/jni/brlttywrapper/brltty/Programs/brlapi_server.c:811-880 | joining keeps every invariant of the server |
| BrlapiHandlers.AttachTtyEffect | braille/service/jni/brlttywrapper/brltty/Programs/brlapi_server.c:777-883 | entering tty mode succeeds exactly for a connection outside tty mode; it then heads the ring of the named tty with its chosen key mode and a blank window, while an attached connection keeps its place and gets an error |
| BrlapiHandlers.HandleEnterTtyValid | braille/service/jni/brlttywrapper/brltty/Programs/brlapi_server.c:777-883 | the handler, corrected not to free the window of a refused client, keeps every invariant of the server |
| BrlapiHandlers.AttachRefusedBlankWindow | braille/service/jni/brlttywrapper/brltty/Programs/brlapi_server.c:803-827 | in the corrected handler, a client already attached that asks for a path not fully present gets INVALID_PARAMETER and stays attached with a fresh blank window and its new keys; the tty tree and every other connection are unchanged |
| BrlapiHandlers.HandleSetFocus | braille/service/jni/brlttywrapper/brltty/Programs/brlapi_server.c:885-894 | only a connection in tty mode outside raw mode may set a focus; it becomes the first packet word as a C int on that connection's tty, and connections and tree positions are untouched |
| BrlapiHandlers.HandleSetFocusValid | braille/service/jni/brlttywrapper/brltty/Programs/brlapi_server.c:885-894 | setting the focus keeps every invariant of the server |
| BrlapiHandlers.DoLeaveTtyValid | braille/service/jni/brlttywrapper/brltty/Programs/brlapi_server.c:897-908 | leaving puts the connection first among the connections without a tty, removes it from the tree, moves no other connection and keeps the server valid |
| BrlapiHandlers.HandleLeaveTty | braille/service/jni/brlttywrapper/brltty/Programs/brlapi_server.c:910-917 | leaving is acknowledged exactly for a connection in tty mode outside raw mode; any other is refused and nothing changes |
| BrlapiHandlers.LeaveGivesBack | braille/service/jni/brlttywrapper/brltty/Programs/brlapi_server.c:897-917 | leaving takes back from the tree and gives back to the no-tty list exactly what joining moved, and clears keys and window |
| BrlapiHandlers.LeaveAfterJoin | braille/service/jni/brlttywrapper/brltty/Programs/brlapi_server.c:872-908 | joining then leaving restores both rings and leaves the record without keys or window |
| BrlapiHandlers.EnterThenLeave | braille/service/jni/brlttywrapper/brltty/Programs/brlapi_server.c:777-917 | entering tty mode and leaving it again restores the rings and the record, except for the key mode asked for |
| BrlapiHandlers.HandleKeyRanges | braille/service/jni/brlttywrapper/brltty/Programs/brlapi_server.c:919-944 | ranges are applied exactly for a well-formed packet from a connection in tty mode outside raw mode; any other packet leaves the state as it was with an error |
| BrlapiHandlers.UniformEditsAccept | braille/service/jni/brlttywrapper/brltty/Programs/brlapi_server.c:926-940 | after a run of ranges of one kind, a covered code is accepted exactly when the kind accepts and any other code as before |
| BrlapiHandlers.HandleKeyRangesEffect | braille/service/jni/brlttywrapper/brltty/Programs/brlapi_server.c:919-944 | the handler keeps the server valid, and after a handled packet a code its ranges cover is accepted exactly for an accept packet and other codes keep their state |
| BrlapiWindow.Blank | braille/service/jni/brlttywrapper/brltty/Programs/brlapi_server.c:545-565 | a new window fits the display, holds a space in every cell with the AND mask all ones and the OR mask all zeros, and has no cursor |
| BrlapiWindow.GetDots | braille/service/jni/brlttywrapper/brltty/Programs/brlapi_server.c:590-599 | one dot pattern per display cell: the character's dots masked by AND and completed by OR, with the cursor shape added to the cursor's cell only |
| BrlapiWindow.NeutralMasksShowText | braille/service/jni/brlttywrapper/brltty/Programs/brlapi_server.c:590-599 | with the masks a window starts with, every cell shows exactly its character's dots, and the cursor cell also the cursor shape |
| BrlapiWindow.MasksBoundCell | braille/service/jni/brlttywrapper/brltty/Programs/brlapi_server.c:596 | whatever the character, the dots of the OR mask are always shown and no dot outside the AND and OR masks ever is |
| BrlapiWindow.RegionWrapAccepted | braille/service/jni/brlttywrapper/brltty/Programs/brlapi_server.c:975-977 | the region check as written accepts a region that starts at cell 2 and is 2^32-1 cells long on a 40-cell display |
| BrlapiWindow.RegionAcceptedOnDisplay | braille/service/jni/brlttywrapper/brltty/Programs/brlapi_server.c:975-977 | a region the intended check accepts is a non-empty run of cells of the display |
| BrlapiWindow.RegionChecksAgree | braille/service/jni/brlttywrapper/brltty/Programs/brlapi_server.c:975-977 | the check as written and the intended check agree whenever the end of the region fits in 32 bits |
| BrlapiWindow.ParseWrite | braille/service/jni/brlttywrapper/brltty/Programs/brlapi_server.c:959-1017 | a parsed request names a region the intended check accepts (or the whole display when it names none), its masks have one byte per region cell and its cursor lies on the display |
| BrlapiWindow.WriteRoundTrip | braille/service/jni/brlttywrapper/brltty/Programs/brlapi_server.c:959-1017 | every well-formed request a client encodes is parsed back to itself, with the region it names or the whole display |
| BrlapiWindow.ApplyWrite | braille/service/jni/brlttywrapper/brltty/Programs/brlapi_server.c:1019-1065 | a checked write changes only the region's cells: they take the text and masks sent, masks not sent with a text reset to 0xFF and 0x00, and a cursor that is non-negative as a C int replaces the old one |
| BrlapiWindow.TextAloneShows | braille/service/jni/brlttywrapper/brltty/Programs/brlapi_server.c:1019-1065 | a write of text alone makes each region cell outside the cursor show exactly its new character's dots, leaves every other cell's dots as they were, and keeps the cursor |
| BrlapiDevice.HandleWrite | braille/service/jni/brlttywrapper/brltty/Programs/brlapi_server.c:946-1066 | a WRITE is applied exactly when it passes every check, including the text check of whichever text path applies; a refused one changes nothing, a short one is an exception and one from outside tty mode or in raw mode an error; only the writer's window and display state change, and flags 0 alone marks the window empty |
| BrlapiDevice.ConvertText | braille/service/jni/brlttywrapper/brltty/Programs/brlapi_server.c:1019-1056 | without iconv a charset not named ISO-8859-1 (ignoring case) is refused as unsupported; with a charset to convert from, the text is accepted exactly when iconv converts it to exactly the region's size, and otherwise it is an invalid packet; with none, the region's size in bytes from the start of the text is copied as ISO-8859-1 without any length check |
| BrlapiDevice.HandleWriteValid | braille/service/jni/brlttywrapper/brltty/Programs/brlapi_server.c:946-1066 | with the intended region check, a WRITE keeps every invariant of the server |
| BrlapiDevice.WriteStored | braille/service/jni/brlttywrapper/brltty/Programs/brlapi_server.c:1019-1065 | with a charset to convert from, a well-formed request whose text iconv converts to exactly the region's size is accepted and leaves the old window with the request and the converted characters applied, marked to be shown |
| BrlapiDevice.Latin1WriteStored | braille/service/jni/brlttywrapper/brltty/Programs/brlapi_server.c:1026-1056 | with no charset to convert from (no iconv, or getCharset gives NULL), every well-formed request with text is accepted, and the region receives the ISO-8859-1 reading of as many bytes as it has cells, starting at the text and running on into the later fields and the buffer beyond the packet |
| BrlapiDevice.Latin1Region | braille/service/jni/brlttywrapper/brltty/Programs/brlapi_server.c:1050-1056 | after that copy, each region cell shows the text byte at its place while the text lasts and past the text the byte that follows at that place |
| BrlapiDevice.ShortTextReadsPastPacket | braille/service/jni/brlttywrapper/brltty/Programs/brlapi_server.c:1050-1056 | without iconv, "hello" written to a 40-cell display with no region is accepted: the first five cells show "hello" and the other 35 the bytes that lie in the buffer after the packet |
| BrlapiDevice.CharsetRefusedWithoutIconv | braille/service/jni/brlttywrapper/brltty/Programs/brlapi_server.c:1019-1024 | without iconv, a text whose charset name is not "iso-8859-1" ignoring case gets an OPNOTSUPP exception and changes nothing |
| BrlapiDevice.WriteShowsText | braille/service/jni/brlttywrapper/brltty/Programs/brlapi_server.c:946-1066 | a client writing text alone sees on its region the dots of the converted characters and everywhere else what it saw before, with the cursor kept |
| BrlapiDevice.CheckModePacket | braille/service/jni/brlttywrapper/brltty/Programs/brlapi_server.c:1068-1080 | a rejected mode packet is reported as an invalid packet or an invalid parameter |
| BrlapiDevice.ModePacketExact | braille/service/jni/brlttywrapper/brltty/Programs/brlapi_server.c:1068-1080 | the check accepts exactly the packet made of the magic word, the length byte and the name of the server's driver, which must be at most 31 bytes |
| BrlapiDevice.HandleEnterRaw | braille/service/jni/brlttywrapper/brltty/Programs/brlapi_server.c:1082-1106 | raw mode is granted exactly when the connection is not in it, the packet names the driver, the driver has a raw mode, nobody holds the driver and a stopped driver can be resumed; it then holds the driver and a stopped driver is resumed, and a busy driver is reported as such |
| BrlapiDevice.HandleLeaveRaw | braille/service/jni/brlttywrapper/brltty/Programs/brlapi_server.c:1108-1118 | only a connection in raw mode may leave it; it then gives the driver back and nothing else changes |
| BrlapiDevice.HandleRawPacket | braille/service/jni/brlttywrapper/brltty/Programs/brlapi_server.c:1120-1127 | in raw mode the packet goes to the driver unchanged; outside it is an exception; the state never changes |
| BrlapiDevice.RawValid | braille/service/jni/brlttywrapper/brltty/Programs/brlapi_server.c:1082-1118 | entering and leaving raw mode keep every invariant of the server |
| BrlapiDevice.RawThenLeave | braille/service/jni/brlttywrapper/brltty/Programs/brlapi_server.c:1082-1118 | leaving raw mode right after entering it gives back the server as it was |
| BrlapiDevice.HandleSuspend | braille/service/jni/brlttywrapper/brltty/Programs/brlapi_server.c:1129-1147 | the driver is suspended exactly when the packet names it, the connection has not suspended it and nobody holds it; the connection then holds it and the driver is asked to stop |
| BrlapiDevice.HandleResume | braille/service/jni/brlttywrapper/brltty/Programs/brlapi_server.c:1149-1161 | only the connection that suspended the driver may resume it; it then gives it back and the driver is asked to restart |
| BrlapiDevice.SuspendValid | braille/service/jni/brlttywrapper/brltty/Programs/brlapi_server.c:1129-1161 | suspending and resuming keep every invariant of the server |
| BrlapiDevice.SuspendThenResume | braille/service/jni/brlttywrapper/brltty/Programs/brlapi_server.c:1129-1161 | resuming right after suspending gives back the server as it was, with the driver stopped and then restarted |
| BrlapiDevice.SingleHolder | braille/service/jni/brlttywrapper/brltty/Programs/brlapi_server.c:1091-1095 | in a valid server at most one connection holds the driver, in raw mode or suspended |
| BrlapiCore.SetCurrentRootTty | braille/service/jni/brlttywrapper/brltty/Programs/brlapi_server.c:2313-2315 | the root's focus becomes the virtual terminal, no connection moves and the server stays valid |
| BrlapiCore.WhoFillsTty | braille/service/jni/brlttywrapper/brltty/Programs/brlapi_server.c:2297-2311 | the display goes to the deepest tty of the focus path with a connection that has something to show, there to the first such connection; it is an attached connection, and none exactly when no tty of the path has one |
| BrlapiCore.WriteWindow | braille/service/jni/brlttywrapper/brltty/Programs/brlapi_server.c:2318-2337 | the core's text reaches the driver exactly when the server is online, nobody holds the driver and no client on the focus path of the new root focus shows anything |
| BrlapiCore.CoreWriteAfterFocusMove | braille/service/jni/brlttywrapper/brltty/Programs/brlapi_server.c:2318-2337 | whatever clients show elsewhere, the core gets the display back as soon as the focus moves to a terminal where no client shows anything |
| BrlapiCore.Flush | braille/service/jni/brlttywrapper/brltty/Programs/brlapi_server.c:2497-2567 | a suspended driver is left alone; otherwise, with the server online, the client that fills the tty shows its window composed by getDots with the cursor one lower exactly when the driver is running or can be resumed, and the flush stops with nothing shown exactly when it cannot; without such a client the core's output is put back and the driver suspended exactly when the core is inactive and the driver running |
| BrlapiCore.FlushShowsWindow | braille/service/jni/brlttywrapper/brltty/Programs/brlapi_server.c:2529-2537 | the flushing client's cells follow its window: neutral-mask cells show their character's dots and the cursor cell carries the cursor shape |
| BrlapiCore.WhoGetsKey | braille/service/jni/brlttywrapper/brltty/Programs/brlapi_server.c:2339-2360 | a key goes to the deepest tty of the focus path with a connection wanting it in the given mode, there to the first such connection, which is attached |
| BrlapiCore.BroadcastKey | braille/service/jni/brlttywrapper/brltty/Programs/brlapi_server.c:2362-2374 | a broadcast reaches exactly the attached connections that want the key, focused or not |
| BrlapiCore.RoutedIsBroadcast | braille/service/jni/brlttywrapper/brltty/Programs/brlapi_server.c:2339-2374 | the connection a key is routed to is among those a broadcast of it reaches |
| BrlapiCore.ComeOnline | braille/service/jni/brlttywrapper/brltty/Programs/brlapi_server.c:2381-2384 | coming back online tells exactly the command-mode clients accepting the no-op, and only when the server was offline |
| BrlapiCore.HandleKeyEvent | braille/service/jni/brlttywrapper/brltty/Programs/brlapi_server.c:2377-2391 | after the server comes back online, a key is consumed exactly when some key-code client on the focus path wants it, and only that client gets it |
| BrlapiCore.HandleCommand | braille/service/jni/brlttywrapper/brltty/Programs/brlapi_server.c:2407-2445 | OFFLINE sets the server offline and tells the clients once; any other command brings it back online, goes to at most one attached client and is consumed exactly when a command-mode client on the focus path accepts it |
| BrlapiCore.OfflineRoundTrip | braille/service/jni/brlttywrapper/brltty/Programs/brlapi_server.c:2407-2428 | going offline tells the command-mode clients once, a second OFFLINE is silent, and the next command restores the server and tells them it is back |
| BrlapiCore.CommandGoesToFocus | braille/service/jni/brlttywrapper/brltty/Programs/brlapi_server.c:2420-2442 | a routed command reaches only the client routing picks, which sits on the focus path |
| DataFile.DotNumberToIndex | braille/service/jni/brlttywrapper/brltty/Programs/datafile.c:61-66 | a dot number maps to its position in the dot-number table, and is refused exactly when it is not in the table |
| DataFile.DotNumberMeaning | braille/service/jni/brlttywrapper/brltty/Programs/datafile.c:61-66 | the characters '1' to '8' name dots 0 to 7 and no other character names a dot |
| DataFile.DotBitToIndex | braille/service/jni/brlttywrapper/brltty/Programs/datafile.c:69-74 | a dot bit maps to its position in the dot-bit table, and is refused exactly when it is not in the table |
| DataFile.DotBitRoundTrip | braille/service/jni/brlttywrapper/brltty/Programs/datafile.c:69-74 | each dot's bit leads back to that dot |
| DataFile.IsKeyword | braille/service/jni/brlttywrapper/brltty/Programs/datafile.c:99-108 | the characters spell the keyword, ignoring the case of ASCII letters, and have its length |
| DataFile.HexadecimalDigit | braille/service/jni/brlttywrapper/brltty/Programs/datafile.c:111-124 | exactly 0-9, a-f and A-F are hexadecimal digits, each worth less than 16 with a 4-bit shift |
| DataFile.HexDigitRoundTrip | braille/service/jni/brlttywrapper/brltty/Programs/datafile.c:111-124 | every value below 16 is written by a digit of either case, and every digit writes its value |
| DataFile.OctalDigit | braille/service/jni/brlttywrapper/brltty/Programs/datafile.c:127-132 | exactly 0-7 are octal digits, each worth less than 8 with a 3-bit shift |
| DataFile.OctalDigitRoundTrip | braille/service/jni/brlttywrapper/brltty/Programs/datafile.c:127-132 | each octal digit reads as its value |
| DataFile.FindDataOperand | braille/service/jni/brlttywrapper/brltty/Programs/datafile.c:323-330 | the cursor moves over the spaces after the current operand, and the search succeeds exactly when a non-space character follows |
| DataFile.GetDataOperand | braille/service/jni/brlttywrapper/brltty/Programs/datafile.c:354-364 | the next operand is the longest run of non-space characters after the spaces, found exactly when one exists |
| DataFile.GetDataText | braille/service/jni/brlttywrapper/brltty/Programs/datafile.c:367-381 | the text runs from the next non-space character to the end of the line without its trailing spaces, found exactly when one exists |
| DataFile.UngetDataCharacters | braille/service/jni/brlttywrapper/brltty/Programs/datafile.c:340-351 | giving back characters is refused exactly when more are asked for than the operand holds; otherwise the operand shrinks by that many |
| DataFile.UngetThenGet | braille/service/jni/brlttywrapper/brltty/Programs/datafile.c:340-364 | giving back a whole operand and reading again yields the same operand |
| DataFile.ClassifyLine | braille/service/jni/brlttywrapper/brltty/Programs/datafile.c:732-737 | blank lines and lines whose first non-space character is '#' never reach the line processor; any other line starts at its first operand |
| DataFile.FindVariable | braille/service/jni/brlttywrapper/brltty/Programs/datafile.c:186-199 | the first variable of the scope with that name, and none exactly when no variable has it |
| DataFile.LookupInnermost | braille/service/jni/brlttywrapper/brltty/Programs/datafile.c:230-240 | a variable is found exactly when some scope has it, and its value is the one of the innermost scope that does |
| DataFile.AssignVariable | braille/service/jni/brlttywrapper/brltty/Programs/datafile.c:196-264 | an assignment creates or overwrites the variable in the current scope only, leaving every other name and every outer scope as it was |
| DataFile.AssignThenLookup | braille/service/jni/brlttywrapper/brltty/Programs/datafile.c:196-264 | after an assignment the name reads as the new value and every other name as before |
| DataFile.ProcessAssignOperands | braille/service/jni/brlttywrapper/brltty/Programs/datafile.c:631-652 | a line without a name changes nothing; otherwise the name then reads as the value operand, or empty when there is none |
| DataFile.ParseDataString | braille/service/jni/brlttywrapper/brltty/Programs/datafile.c:384-596 | a parsed string leaves room for the terminating NUL |
| DataFile.ParseEscaped | braille/service/jni/brlttywrapper/brltty/Programs/datafile.c:384-596 | every string short enough for the buffer, written with escapes for backslash, '#', spaces and control characters, is parsed back to itself |
| DataFile.BraceEscape | braille/service/jni/brlttywrapper/brltty/Programs/datafile.c:499-522 | a brace escape stands for the value of the variable it names and is refused when no scope defines it |
| DataFile.AssignedVariableSubstitutes | braille/service/jni/brlttywrapper/brltty/Programs/datafile.c:499-522 | once a file assigns a variable, the brace escape naming it yields its value |
| DataFile.NoUnicodeRefused | braille/service/jni/brlttywrapper/brltty/Programs/datafile.c:453-461 | the u and U escapes are refused where Unicode is not allowed |
| DataFile.UnknownEscapeRefused | braille/service/jni/brlttywrapper/brltty/Programs/datafile.c:402-575 | after any escaped text, a backslash followed by a character that starts no escape makes the whole string fail |
| DataFile.UnclosedBraceRefused | braille/service/jni/brlttywrapper/brltty/Programs/datafile.c:499-519 | after any escaped text, `\{` with no `}` anywhere after it makes the whole string fail |
| DataFile.ShortNumberRefused | braille/service/jni/brlttywrapper/brltty/Programs/datafile.c:448-494 | after any escaped text, `\o`, `\u`, `\U`, `\x` or `\X` followed by fewer digits of its base than it needs (3 octal, 4, 8 or 2 hexadecimal), ended by another character or by the end of the string, makes the whole string fail |
| DataFile.WideValueRefused | braille/service/jni/brlttywrapper/brltty/Programs/datafile.c:453-494 | after any escaped text, `\U` with eight hexadecimal digits whose value exceeds WCHAR_MAX makes the whole string fail |
| DataFile.NumberEscapeParses | braille/service/jni/brlttywrapper/brltty/Programs/datafile.c:448-494 | a numeric escape with all its digits, whose value is at most WCHAR_MAX, stands for the character of that value (for `\u` and `\U` only where Unicode is allowed), between any escaped texts that leave room in the buffer |
| Parse.PiecesJoin | braille/service/jni/brlttywrapper/brltty/Programs/parse.c:27-76 | the pieces join back to the string, none holds the delimiter, and there is one more piece than delimiters |
| Parse.JoinPieces | braille/service/jni/brlttywrapper/brltty/Programs/parse.c:27-76 | splitting joined delimiter-free parts gives the parts back |
| Parse.SplitString | braille/service/jni/brlttywrapper/brltty/Programs/parse.c:27-76 | NULL gives NULL, "" an empty array, and any other string its pieces, which join back to it and hold no delimiter |
| Parse.SplitCountMeaning | braille/service/jni/brlttywrapper/brltty/Programs/parse.c:27-76 | the count stored is 0 for NULL and "" and one more than the number of delimiters otherwise |
| Parse.JoinStrings | braille/service/jni/brlttywrapper/brltty/Programs/parse.c:86-109 | the result is the strings one after the other, as long as their lengths together |
| Parse.ConcatPlaces | braille/service/jni/brlttywrapper/brltty/Programs/parse.c:86-109 | each string occupies its own stretch of the result, starting at the total length of those before it |
| Parse.RescaleInteger | braille/service/jni/brlttywrapper/brltty/Programs/parse.c:112-114 | when every intermediate of the C computation fits a 32-bit int, so does the result |
| Parse.RescaleIdentity | braille/service/jni/brlttywrapper/brltty/Programs/parse.c:112-114 | rescaling to the same positive scale changes nothing, whenever the C computation stays within 32-bit int |
| Parse.RescaleRounds | braille/service/jni/brlttywrapper/brltty/Programs/parse.c:112-114 | for non-negative values and positive scales whose C computation stays within 32-bit int, the result lies between the exact quotient rounded down and rounded half up |
| Parse.Strtol | braille/service/jni/brlttywrapper/brltty/Programs/parse.c:117-127 | the number read ends within the string and saturates to the range of a long |
| Parse.IntegerRoundTrip | braille/service/jni/brlttywrapper/brltty/Programs/parse.c:117-127 | every int written in decimal is read back as itself |
| Parse.ValidateInteger | braille/service/jni/brlttywrapper/brltty/Programs/parse.c:171-180 | "" is accepted and keeps the value; any other string is accepted exactly when it is an integer within the bounds given, and only then stored |
| Parse.ValidateChoice | braille/service/jni/brlttywrapper/brltty/Programs/parse.c:183-200 | "" is choice 0; otherwise the first choice the string abbreviates, ignoring case, and a refusal exactly when it abbreviates none |
| Parse.YesNoMeaning | braille/service/jni/brlttywrapper/brltty/Programs/parse.c:203-216 | "no" means 0 and "yes" 1, in any case and abbreviated, "" is 0 and any other word is refused |
| Parse.OnOffAmbiguity | braille/service/jni/brlttywrapper/brltty/Programs/parse.c:203-211 | since "off" comes first, "o" alone turns a flag off |
| Parse.IsLogLevel | braille/service/jni/brlttywrapper/brltty/Programs/parse.c:143-168 | "" keeps the level; a name the string abbreviates selects that level; otherwise a number below the count of levels; anything else is refused and keeps the level |
| Parse.ItemSets | braille/service/jni/brlttywrapper/brltty/Programs/parse.c:246-338 | an item "name=value" whose name first abbreviates parameter k sets exactly that parameter to everything after the first '=' |
| Parse.UnknownItemIgnored | braille/service/jni/brlttywrapper/brltty/Programs/parse.c:246-338 | an item whose name abbreviates no parameter changes nothing |
| Parse.QualifiedItem | braille/service/jni/brlttywrapper/brltty/Programs/parse.c:246-338 | "q:name=value" acts as "name=value" for the caller whose qualifier is q |
| Parse.OtherQualifierSkipped | braille/service/jni/brlttywrapper/brltty/Programs/parse.c:246-338 | a qualified item is skipped by a caller with another qualifier |
| Parse.LastItemWins | braille/service/jni/brlttywrapper/brltty/Programs/parse.c:246-338 | items apply in order, so the last assignment to a parameter wins |
| Parse.GetParameters | braille/service/jni/brlttywrapper/brltty/Programs/parse.c:341-376 | one value per name, or none when there is no name table |
| Parse.NoParametersAllEmpty | braille/service/jni/brlttywrapper/brltty/Programs/parse.c:341-376 | without a parameter list, or with an empty one, every value is "" |
| Queue.NewQueue | braille/service/jni/brlttywrapper/brltty/Programs/queue.c:198-213 | a new queue is empty, has no data and is valid |
| Queue.FirstWhereMeaning | braille/service/jni/brlttywrapper/brltty/Programs/queue.c:249-257 | the search finds the first element whose item passes, and none exactly when no element passes |
| Queue.FindElement | braille/service/jni/brlttywrapper/brltty/Programs/queue.c:249-257 | an element is found exactly when some element passes, and it is the first one from the head that does |
| Queue.FindItem | braille/service/jni/brlttywrapper/brltty/Programs/queue.c:260-264 | no passing element gives NULL; otherwise the result is the item of the first element from the head that passes the test |
| Queue.ProcessQueue | braille/service/jni/brlttywrapper/brltty/Programs/queue.c:267-276 | the processor stops at the first element, from the head, for which it returns true; none exactly when it returns false for all |
| Queue.EnqueueItem | braille/service/jni/brlttywrapper/brltty/Programs/queue.c:133-166 | the new element holds the item with a fresh identity, the count goes up by one, the element is inserted where the comparator says and, without a comparator, the item becomes the last |
| Queue.EnqueueKeepsOrder | braille/service/jni/brlttywrapper/brltty/Programs/queue.c:133-159 | with a comparator that puts smaller keys first, a sorted queue stays sorted and the new item goes behind every item of equal key |
| Queue.DeleteElement | braille/service/jni/brlttywrapper/brltty/Programs/queue.c:42-119 | the element is unlinked (unlinkElement) and every other element keeps its place and order; the count goes down by one, and the deallocator receives the item exactly when the queue has a deallocator and the item is not NULL (discardElement) |
| Queue.DequeueItem | braille/service/jni/brlttywrapper/brltty/Programs/queue.c:175-185 | the head's item comes out and the rest stays in order; an empty queue gives NULL and stays as it is |
| Queue.EnqueueDequeueCommute | braille/service/jni/brlttywrapper/brltty/Programs/queue.c:162-185 | without a comparator the queue is first in, first out: enqueueing then dequeueing from a non-empty queue is dequeueing then enqueueing |
| Queue.DeleteItem | braille/service/jni/brlttywrapper/brltty/Programs/queue.c:278-291 | the result says whether the item is in the queue; if so the first element holding it is unlinked and the count goes down, otherwise nothing changes |
| Queue.DeleteElements | braille/service/jni/brlttywrapper/brltty/Programs/queue.c:215-218 | the queue ends empty and valid, and the deallocator receives every non-NULL item in order exactly when the queue has one |
| Queue.RequeueElement | braille/service/jni/brlttywrapper/brltty/Programs/queue.c:168-172 | the element is unlinked and enqueued again with its identity and item, so the queue holds the same elements and count |
| Queue.SetQueueData | braille/service/jni/brlttywrapper/brltty/Programs/queue.c:241-246 | the data is replaced and the previous data returned, with the elements untouched |
| Kbd.ParseKeyboardProperties | braille/service/jni/brlttywrapper/brltty/Programs/kbd.c:34-89 | vendor and product codes always fit in 16 bits |
| Kbd.EmptyDescription | braille/service/jni/brlttywrapper/brltty/Programs/kbd.c:42-46 | no description, or an empty one, describes any keyboard and is accepted |
| Kbd.DescribeRoundTrip | braille/service/jni/brlttywrapper/brltty/Programs/kbd.c:34-89 | describing a keyboard whose codes fit in 16 bits and parsing the description gives that keyboard back |
| Kbd.BadTypeKeepsVendor | braille/service/jni/brlttywrapper/brltty/Programs/kbd.c:48-72 | a type word naming no type is refused, yet the vendor given with it is still applied |
| Kbd.CheckWildcards | braille/service/jni/brlttywrapper/brltty/Programs/kbd.c:92-109 | a keyboard meets its own properties, any keyboard as a requirement is met by all, and a missing keyboard only meets requirements that are wildcards throughout |
| Kbd.LoosenedRequirement | braille/service/jni/brlttywrapper/brltty/Programs/kbd.c:92-109 | turning a required field into a wildcard keeps every keyboard that met the requirement |
| Alva.TakeKeeps1 | braille/service/jni/brlttywrapper/brltty/Drivers/Braille/Alva/braille.c:684-762 | each byte read leads from a packet begun that fits its kind to another such state, or to a complete well-formed packet ending with that byte |
| Alva.ReadPacket1Sound | braille/service/jni/brlttywrapper/brltty/Drivers/Braille/Alva/braille.c:684-762 | a packet returned is well formed, fits the buffer, does not start with 0x00, and is taken from the input just before the bytes left |
| Alva.ReadPacket1Complete | braille/service/jni/brlttywrapper/brltty/Drivers/Braille/Alva/braille.c:684-762 | a well-formed packet that fits the buffer and does not start with 0x00 is read back whole, leaving the bytes after it |
| Alva.SkipNoise1 | braille/service/jni/brlttywrapper/brltty/Drivers/Braille/Alva/braille.c:684-762 | bytes that start no packet are skipped |
| Alva.Length2 | braille/service/jni/brlttywrapper/brltty/Drivers/Braille/Alva/braille.c:1079-1138 | every protocol 2 packet is at least two bytes long |
| Alva.ReadPacket2Sound | braille/service/jni/brlttywrapper/brltty/Drivers/Braille/Alva/braille.c:1079-1345 | a packet the serial reader (readPacket2s) or the USB reader (readPacket2u) returns is well formed, fits the buffer and is taken from the input just before the bytes left |
| Alva.ReadPacket2Complete | braille/service/jni/brlttywrapper/brltty/Drivers/Braille/Alva/braille.c:1079-1345 | both readers read a well-formed packet that fits the buffer back whole after any bytes that start nothing |
| Alva.WriteBraille1RoundTrip | braille/service/jni/brlttywrapper/brltty/Drivers/Braille/Alva/braille.c:942-956 | a cell packet of fewer than 256 cells at a column below 256 tells the display exactly which cells go where |
| Alva.WriteBraille2sRoundTrip | braille/service/jni/brlttywrapper/brltty/Drivers/Braille/Alva/braille.c:1274-1285 | the same for the protocol 2 serial cell packet |
| Alva.Packets2uCarryCells | braille/service/jni/brlttywrapper/brltty/Drivers/Braille/Alva/braille.c:1441-1459 | the USB packets carry every cell once and in order |
| Alva.Packets2uCount | braille/service/jni/brlttywrapper/brltty/Drivers/Braille/Alva/braille.c:1441-1459 | there are as many USB packets as 40-cell chunks |
| Alva.Packets2uHeaders | braille/service/jni/brlttywrapper/brltty/Drivers/Braille/Alva/braille.c:1441-1459 | each USB packet starts with 0x02, its count byte is its number of cells from 1 to 40, and the i-th packet starts 40 i columns on |
| Alva.WriteBraille2u | braille/service/jni/brlttywrapper/brltty/Drivers/Braille/Alva/braille.c:1441-1459 | the packets are written in order until the first one the transport refuses, and the result says whether all were written |
| Alva.LayoutPartitions | braille/service/jni/brlttywrapper/brltty/Drivers/Braille/Alva/braille.c:544-600 | with the status on the left or right, status, separator and text split the display into disjoint regions covering it, and the status gets at most half of the cells left beside the separator |
| Alva.StatusFirstLayout | braille/service/jni/brlttywrapper/brltty/Drivers/Braille/Alva/braille.c:544-552 | with the status first, the text starts right after the status cells and there is no separator |
| Alva.RoutingKeyEvent2 | braille/service/jni/brlttywrapper/brltty/Drivers/Braille/Alva/braille.c:1042-1066 | a routing key is reported only for a text column |
| Alva.RoutingKeyRoundTrip | braille/service/jni/brlttywrapper/brltty/Drivers/Braille/Alva/braille.c:1042-1066 | on current firmware every text column's routing key comes back as that column, on the secondary row only when emulation is on |
| Alva.SplitKeysFold | braille/service/jni/brlttywrapper/brltty/Drivers/Braille/Alva/braille.c:1056-1058 | on older firmware a key at or beyond the split reads as the key that far before it |
| HandyTech.PendingStep | braille/service/jni/brlttywrapper/brltty/Drivers/Braille/HandyTech/braille.c:1032-1113 | one more byte of a packet begun either completes a packet of the length it announces or leaves it incomplete |
| HandyTech.ReadPacketSound | braille/service/jni/brlttywrapper/brltty/Drivers/Braille/HandyTech/braille.c:1032-1113 | a packet returned has the length it announces, fits the buffer, ends with SYN when extended, and is taken from the input just before the bytes left; nothing is returned only when the input is used up |
| HandyTech.PrefixPending | braille/service/jni/brlttywrapper/brltty/Drivers/Braille/HandyTech/braille.c:1032-1113 | no proper prefix of a framed packet is taken for a complete one |
| HandyTech.ReadPacketComplete | braille/service/jni/brlttywrapper/brltty/Drivers/Braille/HandyTech/braille.c:1032-1113 | a framed packet that fits the buffer (with its SYN when extended) is read back whole, whatever follows |
| HandyTech.ReadPacketDiscards | braille/service/jni/brlttywrapper/brltty/Drivers/Braille/HandyTech/braille.c:1032-1113 | a framed packet too long for the buffer, or an extended one without its SYN, is skipped and framing resumes after it |
| HandyTech.ExtendedPacket | braille/service/jni/brlttywrapper/brltty/Drivers/Braille/HandyTech/braille.c:1210-1223 | the bytes sent are EXT, the model, the length byte, the type, the data and SYN; the count sent wraps at 256 like the unsigned char it is held in |
| HandyTech.WriteExtendedPacket | braille/service/jni/brlttywrapper/brltty/Drivers/Braille/HandyTech/braille.c:1210-1223 | the write succeeds exactly when the transport reports every byte of the packet written |
| HandyTech.ExtendedRoundTrip | braille/service/jni/brlttywrapper/brltty/Drivers/Braille/HandyTech/braille.c:1032-1223 | the extended packet writeExtendedPacket builds for a type and at most 250 data bytes, when it fits the buffer, is read back by brl_readPacket as one packet with its model, type and data, unless the Active Braille quirk lengthens it |
| HandyTech.ExtendedWraps | braille/service/jni/brlttywrapper/brltty/Drivers/Braille/HandyTech/braille.c:1219-1222 | with 251 or more data bytes the count wraps and fewer than five bytes go out, without the final SYN |
| HandyTech.InterpretKey | braille/service/jni/brlttywrapper/brltty/Drivers/Braille/HandyTech/braille.c:1475-1494 | a key byte gives one event, a press exactly when the release bit is clear |
| HandyTech.InterpretKeySound | braille/service/jni/brlttywrapper/brltty/Drivers/Braille/HandyTech/braille.c:1475-1494 | every byte that is a key stands for an event the display can report and is that event's byte |
| HandyTech.InterpretKeyComplete | braille/service/jni/brlttywrapper/brltty/Drivers/Braille/HandyTech/braille.c:1475-1494 | every event the display can report is decoded from its byte |
| HandyTech.InterpretBookworm | braille/service/jni/brlttywrapper/brltty/Drivers/Braille/HandyTech/braille.c:1497-1528 | a Bookworm byte is a key exactly when it is not zero and has no bit outside the four keys |
| HandyTech.BookwormPressRelease | braille/service/jni/brlttywrapper/brltty/Drivers/Braille/HandyTech/braille.c:1497-1528 | a Bookworm byte presses some keys and then releases the same keys in reverse order, and the keys pressed add up to the byte |
| HandyTechDriver.SetState | braille/service/jni/brlttywrapper/brltty/Drivers/Braille/HandyTech/braille.c:1122-1132 | entering the current state again counts a retry, entering another resets the count; the pending update is kept |
| HandyTechDriver.RetriesCount | braille/service/jni/brlttywrapper/brltty/Drivers/Braille/HandyTech/braille.c:1122-1132 | after n entries into a state the count is the entries after the first that entered it |
| HandyTechDriver.Identified | braille/service/jni/brlttywrapper/brltty/Drivers/Braille/HandyTech/braille.c:1201-1204 | once identified, the display is ready, with no retry counted and no update pending |
| HandyTechDriver.WriteCells | braille/service/jni/brlttywrapper/brltty/Drivers/Braille/HandyTech/braille.c:1406-1410 | a write succeeds exactly when the transport takes the cells, and then the driver waits for the acknowledgement with the update flag kept |
| HandyTechDriver.UpdateCellsSettles | braille/service/jni/brlttywrapper/brltty/Drivers/Braille/HandyTech/braille.c:1440-1451 | after updateCells no update waits on a ready display: the cells were written or the display is off with the update still pending; it fails exactly for a failed write, and changes nothing unless an update was pending on a ready display |
| HandyTechDriver.UpdateCellsIdempotent | braille/service/jni/brlttywrapper/brltty/Drivers/Braille/HandyTech/braille.c:1440-1451 | a second updateCells finds nothing to do |
| HandyTechDriver.WriteStatus | braille/service/jni/brlttywrapper/brltty/Drivers/Braille/HandyTech/braille.c:1465-1472 | status cells that changed mark an update and nothing else changes |
| HandyTechDriver.WriteWindowEffect | braille/service/jni/brlttywrapper/brltty/Drivers/Braille/HandyTech/braille.c:1454-1462 | changed cells on a ready display are written at once (or turn it off when the write fails); on a display that is writing or off they wait, marked |
| HandyTechDriver.Acknowledgement | braille/service/jni/brlttywrapper/brltty/Drivers/Braille/HandyTech/braille.c:1576-1600 | an acknowledgement is always an ACK or a NAK |
| HandyTechDriver.ReadyPacket | braille/service/jni/brlttywrapper/brltty/Drivers/Braille/HandyTech/braille.c:1620-1718 | a packet on a ready display never changes the driver |
| HandyTechDriver.OffIgnores | braille/service/jni/brlttywrapper/brltty/Drivers/Braille/HandyTech/braille.c:1562-1574 | a display that is off is woken only by its own OK packet and ignores every other packet |
| HandyTechDriver.KeysOnlyWhenOn | braille/service/jni/brlttywrapper/brltty/Drivers/Braille/HandyTech/braille.c:1562-1718 | a key is reported only from a display that is not off, decoded from the key byte, with the driver unchanged |
| HandyTechDriver.HandlePacketChanges | braille/service/jni/brlttywrapper/brltty/Drivers/Braille/HandyTech/braille.c:1562-1618 | only the display's own OK packet, or an acknowledgement while writing, changes the driver; the own OK makes it ready with an update pending |
| HandyTechDriver.ReadLoop | braille/service/jni/brlttywrapper/brltty/Drivers/Braille/HandyTech/braille.c:1531-1727 | a key ends the loop with some input consumed |
| HandyTechDriver.ReadCommandSettles | braille/service/jni/brlttywrapper/brltty/Drivers/Braille/HandyTech/braille.c:1531-1747 | whenever brl_readCommand returns EOF no update waits on a ready display, and it restarts the driver only from the writing state when not one packet came within the elapsed state period, leaving the driver as it was |
| HandyTechDriver.ReadNothing | braille/service/jni/brlttywrapper/brltty/Drivers/Braille/HandyTech/braille.c:1531-1727 | with nothing to read the loop ends at once with the driver unchanged |
| HandyTechDriver.TimeoutRewrites | braille/service/jni/brlttywrapper/brltty/Drivers/Braille/HandyTech/braille.c:1728-1742 | a write not acknowledged within the state period is repeated, counting a retry, until more than three retries have gone unanswered or the rewrite fails; then the driver restarts |
| HandyTechDriver.WaitingKeepsWriting | braille/service/jni/brlttywrapper/brltty/Drivers/Braille/HandyTech/braille.c:1728-1746 | before the state period runs out a call with nothing to read changes nothing on a display that is writing |
| HandyTechDriver.UnansweredRestarts | braille/service/jni/brlttywrapper/brltty/Drivers/Braille/HandyTech/braille.c:1122-1742 | an unanswered write with k retries behind it is repeated 4 - k more times, each rewrite counting one more retry in setState, and the call after that restarts the driver |
| HandyTechDriver.NakRewrites | braille/service/jni/brlttywrapper/brltty/Drivers/Braille/HandyTech/braille.c:1576-1746 | a NAK while writing marks the cells for update and makes the display ready, so the update at the end of the call writes them again at once and the driver waits for the new acknowledgement |
| HandyTechDriver.AckReady | braille/service/jni/brlttywrapper/brltty/Drivers/Braille/HandyTech/braille.c:1576-1746 | an ACK while writing makes the display ready; pending cells then go out at once at the end of the call, otherwise the driver waits for new cells |
| HandyTechDriver.OwnOkWrites | braille/service/jni/brlttywrapper/brltty/Drivers/Braille/HandyTech/braille.c:1562-1746 | the display's OK for its own model, in any state, has the cells written by the update at the end of the call; a failed write leaves the display off with the update still pending |
| HandyTechDriver.KeyByteReported | braille/service/jni/brlttywrapper/brltty/Drivers/Braille/HandyTech/braille.c:1713-1746 | a key byte from a display that is on (and not an acknowledgement a writing display takes) ends the call with its events, leaving the bytes after it unread |
| BrlTest.Windows | braille/service/jni/brlttywrapper/brltty/Programs/brltest.c:88-102 | every window written is exactly as wide as the display, and the text can be shown exactly when it fits in one window or the display has at least two cells |
| BrlTest.WindowsHoldText | braille/service/jni/brlttywrapper/brltty/Programs/brltest.c:88-102 | every window but the last ends with a continuation dash, and dropping those dashes leaves the text followed only by blank padding shorter than a window |
| BrlTest.Message | braille/service/jni/brlttywrapper/brltty/Programs/brltest.c:77-114 | the windows are written in order; the result is 1 exactly when every window was accepted, and otherwise the last window written is the refused one |
| BrlTest.DriverParametersAsParameterList | braille/service/jni/brlttywrapper/brltty/Programs/brltest.c:171-194 | the program goes on exactly when every argument is "name=value" with a name abbreviating a parameter, and the settings are those the parameter-list parser computes for the same items |
| StringUtils.CodePointBefore | braille/brailleback/src/com/googlecode/eyesfree/brailleback/utils/StringUtils.java:85-86 | the code point ending before the index is a valid one; a surrogate pair counts as one code point above the Basic Multilingual Plane, and any other unit stands for itself |
| StringUtils.EndsWithSpaceLastUnit | braille/brailleback/src/com/googlecode/eyesfree/brailleback/utils/StringUtils.java:81-87 | since no space character lies outside the Basic Multilingual Plane, the text ends with a space exactly when its last code unit is a space character |
| StringUtils.AppendWithSpaces | braille/brailleback/src/com/googlecode/eyesfree/brailleback/utils/StringUtils.java:28-75 | the result is the buffer followed by each non-null argument in order, each preceded by a space exactly when the text before it is not empty and does not end in a space character |
| StringUtils.AppendWithSeparators | braille/brailleback/src/com/googlecode/eyesfree/brailleback/utils/StringUtils.java:45-61 | the same with a '#' before each word that follows text not ending in a space character |
| StringUtils.AppendAllSpliced | braille/brailleback/src/com/googlecode/eyesfree/brailleback/utils/StringUtils.java:28-75 | for every buffer and argument list, nulls, empty words and words ending in a space included, the loop appends the non-null words in order, a separator before a word exactly when the text before it is not empty and does not end in a space character |
| StringUtils.AppendTwice | braille/brailleback/src/com/googlecode/eyesfree/brailleback/utils/StringUtils.java:28-75 | two calls on the same buffer append what one call with both argument lists does |
| StringUtils.AppendAfterWord | braille/brailleback/src/com/googlecode/eyesfree/brailleback/utils/StringUtils.java:28-75 | after a buffer that does not end in a space, each non-null word that does not end in a space gets exactly one separator in front |
| StringUtils.SpacesJoin | braille/brailleback/src/com/googlecode/eyesfree/brailleback/utils/StringUtils.java:28-75 | into an empty buffer, the non-null words come out joined by single spaces |
| StringUtils.SeparatorsJoin | braille/brailleback/src/com/googlecode/eyesfree/brailleback/utils/StringUtils.java:45-61 | into an empty buffer, the non-null words come out joined by '#' |
| StringUtils.SeparatorSkippedAfterSpace | braille/brailleback/src/com/googlecode/eyesfree/brailleback/utils/StringUtils.java:51-53 | no separator goes after a word that ends in a space |
| BrlapiHandlers.EnterTtyAsWrittenFreesWindow | braille/service/jni/brlttywrapper/brltty/Programs/brlapi_server.c:818-827 | as written, a client already attached to a tty that asks for a path not fully present gets INVALID_PARAMETER, yet stays attached with its window freed, a state no later write can fill |
| BrlapiHandlers.AttachMaskFailureFreesWindow | braille/service/jni/brlttywrapper/brltty/Programs/brlapi_server.c:804-809 | when the key masks cannot be resolved, a connection already in tty mode gets a NOMEM error and stays in its ring with no window and no keys, a server state that is not valid, whichever enter-tty handler runs |
| BrlapiHandlers.FreedWindowExample | braille/service/jni/brlttywrapper/brltty/Programs/brlapi_server.c:818-827 | a concrete attached client with a 40-cell window asking for tty 2 under root is refused and left attached with no window |
| Alva.StatusShare | braille/service/jni/brlttywrapper/brltty/Drivers/Braille/Alva/braille.c:544-600 | a left or right status layout gets min(requested, (columns-1)/2) status cells; a non-zero share costs the text that many cells plus one separator, a zero share leaves the text the whole line from offset 0 |

## Left out

- Socket setup and threads are left out; they are I/O and concurrency. This covers TCP and local sockets, lock files, bind retries, the select loop, Windows overlapped I/O and thread creation. Each handler is one atomic step, as the mutexes make it, and the lock order is not modelled.
- api_handleCommand unlocks the connections mutex twice on one path. That is a concurrency fault and outside a sequential model.
- Allocation failures are not modelled. Every `malloc` and `realloc` succeeds in the model.
- Charset conversion through iconv in `handleWrite` is a parameter (`Converter`). Whether the server is built with iconv, and the charset `getCharset` gives, are fields of `TextSetup`. ICU's character-name lookup for `\<name>` in data files is not modelled either.
- BrlapiDevice.HandleWrite: the packet buffer is taken to reach at least 16 bytes plus the display width beyond the start of the packet, with at least one byte after it (`BufferCovers`). The C buffer holds 4100 bytes, so this holds for every display BRLTTY drives. The charset lock that a failed conversion leaves held (brlapi_server.c lines 1028-1044) is not modelled, since locking is not.
- BrlapiHandlers.ParseEnterTty: the byte count `nbTtys*sizeof(uint32_t)` is compared without wrap-around, as with a 64-bit `size_t` (LP64). With a 32-bit `size_t` the product wraps for large tty counts, and that is not modelled.
- Common.IsSpace and Common.ToLower follow the "C" locale only. Locales that class more characters as spaces or fold more letters are not modelled.
- The key-range list, the dot tables, `convertCharacterToDots`, `brlapiserver_getKeyrangeMask`, `cmdBrlttyToBrlapi`, autorepeat and the driver's `reset`, `readCommand` and `writePacket` are not shown. They are parameters or sets, not definitions.
- The clock is a parameter (`now`), so no timing claim is made. In particular, the credential comparison is a plain byte comparison and is not claimed to run in constant time.
- `api_flush` and `api_readCommand` reach the driver. Only their gating conditions are modelled, not the driver I/O.
- Device transports are not modelled: serial, USB and Bluetooth, the probing loops of `identifyModel` and `detectModel`, and read errors.
- Driver timers are not modelled as clocks. The rewrite timeout of `brl_readCommand` is a parameter (`periodElapsed`) saying whether the state period has run out. Date and time synchronisation is left out.
- HandyTech touch, ATC, reading-position, clock and scan-code packets are passed over as non-key input. The model does not analyse them.
- HandyTech's Bookworm offline kludge in `brl_readCommand` (HandyTech/braille.c lines 1542-1560) is not modelled.
- HandyTech's per-model cell encoders are abstracted as one write result (`writeOk`) per call to `brl_readCommand`.
- A failed `enqueueKeyEvent` is not modelled. The key handlers return their key events as a list.
- The HandyTech and BrlAPI protocol constants come from headers that are not part of this model. The values used are BRLTTY's. Most properties rest only on the constants being distinct. Two groups depend on the values themselves:
  - the HandyTech key decoding (`InterpretKeySound`, `InterpretKeyComplete`) uses the routing base 0x20, the status base 0x70 and the release bit 0x80;
  - `BookwormKeysSum` needs the four Bookworm keys to be the distinct single bits 0x01, 0x08, 0x02 and 0x04.
- Wide characters are unbounded naturals, with `WCHAR_MAX` fixed at 0x7FFF_FFFF (a signed 32-bit `wchar_t`).
- UTF-8 conversion in data files is not modelled.
- `includeDataFile` and the opening of data files are not modelled. Only the line tokenizer and the string operand parser are.
- `isFloat` and `validateFloat` are left out because they use floating point.
- HandyTech.ExtendedRoundTrip: it is stated only for packets of at most 250 data bytes, since the length byte holds size+1. It also excludes the one Active Braille confirmation packet that the quirk lengthens by one byte.
- HandyTech.ReadPacket: it requires a buffer of at least four bytes, the size of the shortest extended header. Every caller in the driver passes a larger buffer.
- An extended HandyTech packet whose length byte is 0 is framed as the C code frames it, with no claim beyond that.
- BrlTest.Message: it requires a window of at least two cells whenever the text does not fit in one window. With one cell the C loop makes no progress, and with none it computes a negative count. The pause for a key between windows is not modelled.
- BrlapiSession.Release: it states the suspend holder's release only for a connection that is not in raw mode. The server invariant keeps a connection from holding both.
- StringUtils.IsSpaceChar: it is Java's space-separator set as of Unicode 6. Later Unicode versions are not followed.
- The tty ring order is modelled as the code does it: a new connection is inserted right after the ring's sentinel, that is, at the front.
- HandyTech's `brl_reset` only writes a reset packet. It is not modelled as a state change.
- Windows-only code paths are not modelled.
- BrlapiWindow.ParseWrite: it uses the intended region check (`RegionAccepted`), not the 32-bit wrapping one of brlapi_server.c lines 975-977. So a wrapped region that the C code accepts is refused here, although the C code then copies `rsiz` cells into the window. The wrapping check is `RegionAcceptedAsWritten`, with the fault shown under "## Findings".
- BrlapiDevice.HandleWrite: it inherits the intended region check from `ParseWrite`.
- BrlapiDevice.HandleWriteValid: it is proved for the intended region check only. With the wrapping check, the C code writes past the window, which no invariant over the model's sequences can describe.
- BrlapiSession.Dispatch: it dispatches the corrected enter-tty handler (`keepNewWindow` true). The handler as written (brlapi_server.c lines 818-827) frees the fresh blank window it has just allocated for a refused client that stays attached. That handler is `EnterTtyAsWritten`, and `EnterTtyAsWrittenFreesWindow` shows the state it leaves.
- BrlapiSession.Serve: it inherits the corrected enter-tty handler from `Dispatch`.
- BrlapiSession.DispatchValid: it holds for the corrected enter-tty handler, and only when the key masks resolve (`MaskResolves`). When `initializeAcceptedKeys` fails (brlapi_server.c lines 2258 and 805-809), the handler leaves an attached connection without a window, as `AttachMaskFailureFreesWindow` shows. The invariant then fails.
- BrlapiSession.ServeValid: it has the same two conditions as `DispatchValid`.
- Parse.Strtol: `long` is taken as 64 bits wide (LP64). On a 32-bit build `strtol` saturates at 2^31-1 and -2^31 instead. There `IsInteger` and `ValidateInteger` accept different text, for example "4294967296". The width is not a parameter.
- Queue element identities are never reused in the model. queue.c recycles discarded elements through a free list, so a stale `Element` pointer can alias a newer element. The model cannot show that.

## Findings

| source | as written | input that shows it | evidently intended | confidence | as-written member | corrected member |
|---|---|---|---|---|---|---|
| braille/service/jni/brlttywrapper/brltty/Programs/brlapi_server.c:975-977 | the region check computes rbeg+rsiz-1 in 32-bit unsigned arithmetic, so the end of the region can wrap below the display size | rbeg = 2, rsiz = 0xFFFFFFFF on a 40-cell display: 2+0xFFFFFFFF-1 wraps to 0, which is at most 40 | a region is accepted only if it starts at cell 1 or later and ends on the display | not executed | BrlapiWindow.RegionWrapAccepted | BrlapiWindow.RegionAcceptedOnDisplay |
| braille/service/jni/brlttywrapper/brltty/Programs/brlapi_server.c:818-827 | when a client already in tty mode asks for a path that is not fully present, the handler frees the client's window and replies INVALID_PARAMETER, but the client stays attached to its tty | a client attached to tty 1 with a 40-cell window asks for tty 2 under the root | a refused client stays attached with a fresh blank window | not executed | BrlapiHandlers.EnterTtyAsWrittenFreesWindow | BrlapiHandlers.HandleEnterTtyValid |
