/** The ICMPv4 `with_*` constructors, and exactly which packets they produce. */
module Icmpv4Build {
  import opened Prelude
  import opened PacketErrors
  import opened Icmpv4
  import opened Icmpv4Checksum

  function WithEchoReply(identifier: U16, sequence: U16, payload: seq<Byte>): Result<Packet, BuildError> {
    Ok(Packet(0, 0, 0, EchoReply(identifier, sequence, payload)))
  }

  function WithEchoRequest(identifier: U16, sequence: U16, payload: seq<Byte>): Result<Packet, BuildError> {
    Ok(Packet(8, 0, 0, Echo(identifier, sequence, payload)))
  }

  function WithTimestampRequest(identifier: U16, sequence: U16, originate: U32, receive: U32, transmit: U32)
    : Result<Packet, BuildError>
  {
    Ok(Packet(13, 0, 0, Timestamp(identifier, sequence, originate, receive, transmit)))
  }

  function WithTimestampReply(identifier: U16, sequence: U16, originate: U32, receive: U32, transmit: U32)
    : Result<Packet, BuildError>
  {
    Ok(Packet(14, 0, 0, TimestampReply(identifier, sequence, originate, receive, transmit)))
  }

  function WithUnreachable(code: Byte, packet: seq<Byte>): Result<Packet, BuildError> {
    if code > 5 then Err(InvalidCode(code)) else Ok(Packet(3, code, 0, Unreachable(0, packet)))
  }

  function WithParameterProblem(code: Byte, pointer: Byte, packet: seq<Byte>): Result<Packet, BuildError> {
    if code != 0 then Err(InvalidCode(code)) else Ok(Packet(12, code, 0, ParameterProblem(pointer, (0, 0), packet)))
  }

  function WithTimeExceeded(code: Byte, packet: seq<Byte>): Result<Packet, BuildError> {
    if code > 1 then Err(InvalidCode(code)) else Ok(Packet(11, code, 0, TimeExceeded(0, packet)))
  }

  /** One call of one constructor. */
  datatype Request =
    | ForEchoReply(identifier: U16, sequence: U16, payload: seq<Byte>)
    | ForEchoRequest(identifier: U16, sequence: U16, payload: seq<Byte>)
    | ForTimestampRequest(identifier: U16, sequence: U16, originate: U32, receive: U32, transmit: U32)
    | ForTimestampReply(identifier: U16, sequence: U16, originate: U32, receive: U32, transmit: U32)
    | ForUnreachable(code: Byte, packet: seq<Byte>)
    | ForParameterProblem(code: Byte, pointer: Byte, packet: seq<Byte>)
    | ForTimeExceeded(code: Byte, packet: seq<Byte>)

  function Build(r: Request): Result<Packet, BuildError> {
    match r
    case ForEchoReply(identifier, sequence, payload) => WithEchoReply(identifier, sequence, payload)
    case ForEchoRequest(identifier, sequence, payload) => WithEchoRequest(identifier, sequence, payload)
    case ForTimestampRequest(identifier, sequence, originate, receive, transmit) =>
      WithTimestampRequest(identifier, sequence, originate, receive, transmit)
    case ForTimestampReply(identifier, sequence, originate, receive, transmit) =>
      WithTimestampReply(identifier, sequence, originate, receive, transmit)
    case ForUnreachable(code, packet) => WithUnreachable(code, packet)
    case ForParameterProblem(code, pointer, packet) => WithParameterProblem(code, pointer, packet)
    case ForTimeExceeded(code, packet) => WithTimeExceeded(code, packet)
  }

  /** The packets some constructor call yields: unfilled, well formed, unused fields zero, code in range. */
  predicate Constructible(p: Packet) {
    && WellFormed(p)
    && p.checksum == 0
    && match p.message
       case Unreachable(padding, _) => padding == 0 && p.code <= 5
       case TimeExceeded(padding, _) => padding == 0 && p.code <= 1
       case ParameterProblem(_, unused, _) => unused == (0, 0) && p.code == 0
       case Echo(_, _, _) => p.code == 0
       case EchoReply(_, _, _) => p.code == 0
       case Timestamp(_, _, _, _, _) => p.code == 0
       case TimestampReply(_, _, _, _, _) => p.code == 0
       case _ => false
  }

  function RequestFor(p: Packet): Request
    requires Constructible(p)
  {
    match p.message
    case Unreachable(_, header) => ForUnreachable(p.code, header)
    case TimeExceeded(_, header) => ForTimeExceeded(p.code, header)
    case ParameterProblem(pointer, _, header) => ForParameterProblem(p.code, pointer, header)
    case Echo(identifier, sequence, payload) => ForEchoRequest(identifier, sequence, payload)
    case EchoReply(identifier, sequence, payload) => ForEchoReply(identifier, sequence, payload)
    case Timestamp(identifier, sequence, originate, receive, transmit) =>
      ForTimestampRequest(identifier, sequence, originate, receive, transmit)
    case TimestampReply(identifier, sequence, originate, receive, transmit) =>
      ForTimestampReply(identifier, sequence, originate, receive, transmit)
  }

  /** The constructors produce exactly the constructible packets, each from one request, and else name the code. */
  lemma BuildImage(r: Request, p: Packet)
    ensures Build(r) == Ok(p) <==> Constructible(p) && r == RequestFor(p)
    ensures Build(r).Err? <==> (
              || (r.ForUnreachable? && r.code > 5)
              || (r.ForParameterProblem? && r.code > 0)
              || (r.ForTimeExceeded? && r.code > 1))
    ensures Build(r).Err? ==> Build(r).error == InvalidCode(r.code)
  {
  }

  /** Every successful constructor call, once filled, survives the wire behind any header and verifies. */
  lemma BuiltSurvivesTheWire(r: Request, header: seq<Byte>)
    requires Build(r).Ok?
    requires header == [] || Ipv4HeaderOfOwnLength(header)
    ensures var filled := Filled(Build(r).value);
            ParseAuto(header + Bytes(filled, true)) == Ok(filled) && Verifies(filled)
  {
    BuildImage(r, Build(r).value);
    FilledVerifies(Build(r).value);
    AutoDetectionUnambiguous(Filled(Build(r).value), header);
  }
}
