/** The vocabulary of the BrlAPI protocol the server speaks: packet types,
    error codes and what a handler sends back.  The numeric packet types are
    those of the BrlAPI protocol header, which is not part of this model; only
    their distinctness matters to the properties proved here. */
module BrlapiProtocol {

  /** Packet types a client can send, as the server's dispatch distinguishes them. */
  datatype PacketType =
    | VersionPacket | AuthPacket
    | GetDriverName | GetDisplaySize
    | EnterTtyMode | SetFocus | LeaveTtyMode
    | IgnoreKeyRanges | AcceptKeyRanges
    | WritePacket
    | EnterRawMode | LeaveRawMode | RawPacket
    | SuspendDriver | ResumeDriver
    | OtherType(code: nat)

  /** The wire value of each packet type (one ASCII letter per type). */
  function TypeCode(t: PacketType): nat {
    match t
    case VersionPacket => 'v' as nat
    case AuthPacket => 'a' as nat
    case GetDriverName => 'n' as nat
    case GetDisplaySize => 's' as nat
    case EnterTtyMode => 't' as nat
    case SetFocus => 'F' as nat
    case LeaveTtyMode => 'L' as nat
    case IgnoreKeyRanges => 'm' as nat
    case AcceptKeyRanges => 'u' as nat
    case WritePacket => 'w' as nat
    case EnterRawMode => '*' as nat
    case LeaveRawMode => '#' as nat
    case RawPacket => 'p' as nat
    case SuspendDriver => 'S' as nat
    case ResumeDriver => 'R' as nat
    case OtherType(code) => code
  }

  /** Reads the type word of a packet header. */
  function ClassifyType(code: nat): (t: PacketType)
    ensures TypeCode(t) == code
  {
    if code == 'v' as nat then VersionPacket
    else if code == 'a' as nat then AuthPacket
    else if code == 'n' as nat then GetDriverName
    else if code == 's' as nat then GetDisplaySize
    else if code == 't' as nat then EnterTtyMode
    else if code == 'F' as nat then SetFocus
    else if code == 'L' as nat then LeaveTtyMode
    else if code == 'm' as nat then IgnoreKeyRanges
    else if code == 'u' as nat then AcceptKeyRanges
    else if code == 'w' as nat then WritePacket
    else if code == '*' as nat then EnterRawMode
    else if code == '#' as nat then LeaveRawMode
    else if code == 'p' as nat then RawPacket
    else if code == 'S' as nat then SuspendDriver
    else if code == 'R' as nat then ResumeDriver
    else OtherType(code)
  }

  /** Classification inverts the wire value for every named type. */
  lemma ClassifyTypeCode(t: PacketType)
    requires !t.OtherType?
    ensures ClassifyType(TypeCode(t)) == t
  {
  }

  /** The error codes the server's handlers report. */
  datatype ErrorCode =
    | IllegalInstruction | InvalidPacket | InvalidParameter | OpNotSupported
    | NoMemory | DeviceBusy | DriverError | AuthenticationFailed
    | ProtocolVersionError | ConnectionRefused | UnknownInstruction

  /** What a handler sends back on the connection: an acknowledgement, an
      error (CHECKERR, WERR), an exception that echoes the offending packet
      (CHECKEXC, WEXC), an answer packet carrying data, or nothing. */
  datatype Reply = Ack | Error(code: ErrorCode) | Exception(code: ErrorCode) | Answer(data: seq<bv8>) | Silent
}
