/** The ICMPv6 `with_*` constructors, and exactly which packets they produce. */
module Icmpv6Build {
  import opened Prelude
  import opened PacketErrors
  import opened Icmpv6

  function WithPacketTooBig(mtu: U32, packet: seq<Byte>): Result<Packet, BuildError> {
    Ok(Packet(2, 0, 0, PacketTooBig(mtu, packet)))
  }

  function WithEchoRequest(identifier: U16, sequence: U16, payload: seq<Byte>): Result<Packet, BuildError> {
    Ok(Packet(128, 0, 0, EchoRequest(identifier, sequence, payload)))
  }

  function WithEchoReply(identifier: U16, sequence: U16, payload: seq<Byte>): Result<Packet, BuildError> {
    Ok(Packet(129, 0, 0, EchoReply(identifier, sequence, payload)))
  }

  function WithUnreachable(code: Byte, packet: seq<Byte>): Result<Packet, BuildError> {
    if code > 6 then Err(InvalidCode(code)) else Ok(Packet(1, code, 0, Unreachable(0, packet)))
  }

  function WithParameterProblem(code: Byte, pointer: U32, packet: seq<Byte>): Result<Packet, BuildError> {
    if code > 1 then Err(InvalidCode(code)) else Ok(Packet(4, code, 0, ParameterProblem(pointer, packet)))
  }

  function WithTimeExceeded(code: Byte, packet: seq<Byte>): Result<Packet, BuildError> {
    if code > 1 then Err(InvalidCode(code)) else Ok(Packet(3, code, 0, TimeExceeded(0, packet)))
  }

  /** One call of one constructor. */
  datatype Request =
    | ForPacketTooBig(mtu: U32, packet: seq<Byte>)
    | ForEchoRequest(identifier: U16, sequence: U16, payload: seq<Byte>)
    | ForEchoReply(identifier: U16, sequence: U16, payload: seq<Byte>)
    | ForUnreachable(code: Byte, packet: seq<Byte>)
    | ForParameterProblem(code: Byte, pointer: U32, packet: seq<Byte>)
    | ForTimeExceeded(code: Byte, packet: seq<Byte>)

  function Build(r: Request): Result<Packet, BuildError> {
    match r
    case ForPacketTooBig(mtu, packet) => WithPacketTooBig(mtu, packet)
    case ForEchoRequest(identifier, sequence, payload) => WithEchoRequest(identifier, sequence, payload)
    case ForEchoReply(identifier, sequence, payload) => WithEchoReply(identifier, sequence, payload)
    case ForUnreachable(code, packet) => WithUnreachable(code, packet)
    case ForParameterProblem(code, pointer, packet) => WithParameterProblem(code, pointer, packet)
    case ForTimeExceeded(code, packet) => WithTimeExceeded(code, packet)
  }

  /** The packets some constructor call yields. */
  predicate Constructible(p: Packet) {
    && WellFormed(p)
    && p.checksum == 0
    && match p.message
       case Unreachable(unused, _) => unused == 0 && p.code <= 6
       case PacketTooBig(_, _) => p.code == 0
       case TimeExceeded(unused, _) => unused == 0 && p.code <= 1
       case ParameterProblem(_, _) => p.code <= 1
       case PrivateExperimental(_, _) => false
       case EchoRequest(_, _, _) => p.code == 0
       case EchoReply(_, _, _) => p.code == 0
  }

  function RequestFor(p: Packet): Request
    requires Constructible(p)
  {
    match p.message
    case Unreachable(_, packet) => ForUnreachable(p.code, packet)
    case PacketTooBig(mtu, packet) => ForPacketTooBig(mtu, packet)
    case TimeExceeded(_, packet) => ForTimeExceeded(p.code, packet)
    case ParameterProblem(pointer, packet) => ForParameterProblem(p.code, pointer, packet)
    case EchoRequest(identifier, sequence, payload) => ForEchoRequest(identifier, sequence, payload)
    case EchoReply(identifier, sequence, payload) => ForEchoReply(identifier, sequence, payload)
  }

  /** The constructors produce exactly the constructible packets, each from one request, and else name the code. */
  lemma BuildImage(r: Request, p: Packet)
    ensures Build(r) == Ok(p) <==> Constructible(p) && r == RequestFor(p)
    ensures Build(r).Err? <==> (
              || (r.ForUnreachable? && r.code > 6)
              || (r.ForParameterProblem? && r.code > 1)
              || (r.ForTimeExceeded? && r.code > 1))
    ensures Build(r).Err? ==> Build(r).error == InvalidCode(r.code)
  {
  }

  /** Every successful constructor call, once filled, survives the wire and verifies for its two addresses. */
  lemma BuiltSurvivesTheWire(r: Request, source: Ipv6Addr, dest: Ipv6Addr)
    requires Build(r).Ok?
    ensures var filled := Filled(Build(r).value, source, dest);
            Parse(Bytes(filled, true)) == Ok(filled) && Verifies(filled, source, dest)
  {
    BuildImage(r, Build(r).value);
    FilledVerifies(Build(r).value, source, dest);
  }
}
