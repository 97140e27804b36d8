/** The ICMPv6 wire format octet by octet, apart from the printer and parser that share it. */
module Octets6 {
  import opened Prelude
  import opened PacketErrors
  import opened Icmpv6
  import opened Icmpv6Build
  import opened Octets4

  /** The octets after the checksum, variant by variant. */
  function Layout(m: Message): seq<Byte> {
    match m
    case Unreachable(unused, invokingPacket) => Four(unused) + invokingPacket
    case PacketTooBig(mtu, invokingPacket) => Four(mtu) + invokingPacket
    case TimeExceeded(unused, invokingPacket) => Four(unused) + invokingPacket
    case ParameterProblem(pointer, invokingPacket) => Four(pointer) + invokingPacket
    case PrivateExperimental(padding, payload) => Four(padding) + payload
    case EchoRequest(identifier, sequence, payload) => Two(identifier) + Two(sequence) + payload
    case EchoReply(identifier, sequence, payload) => Two(identifier) + Two(sequence) + payload
  }

  lemma MessageOctets(m: Message)
    ensures FieldBytes(m) + BodyBytes(m) == Layout(m)
  {
    match m {
      case Unreachable(unused, _) => U32Octets(unused);
      case PacketTooBig(mtu, _) => U32Octets(mtu);
      case TimeExceeded(unused, _) => U32Octets(unused);
      case ParameterProblem(pointer, _) => U32Octets(pointer);
      case PrivateExperimental(padding, _) => U32Octets(padding);
      case _ =>
    }
  }

  /** The octets of every packet, well formed or not. */
  lemma PacketOctets(p: Packet)
    ensures Bytes(p, true) == [p.typ, p.code] + Two(p.checksum) + Layout(p.message)
  {
    MessageOctets(p.message);
  }

  /** Which bytes parse, by length and first octet, and the error of all others. */
  lemma ParsedTypes(bytes: seq<Byte>)
    ensures |bytes| < 8 ==> Parse(bytes) == Err(PacketTooSmall(|bytes|))
    ensures |bytes| >= 8 && bytes[0] !in {1, 2, 3, 4, 100, 101, 128, 129, 200, 201} ==>
              Parse(bytes) == Err(UnrecognizedIcmpType(bytes[0]))
    ensures |bytes| >= 8 && bytes[0] in {1, 2, 3, 4, 100, 101, 128, 129, 200, 201} ==> Parse(bytes).Ok?
  {
  }

  /** The type octets of each variant. */
  lemma TypeOctets(p: Packet)
    ensures WellFormed(p) <==>
            match p.message
            case Unreachable(_, _) => p.typ == 1
            case PacketTooBig(_, _) => p.typ == 2
            case TimeExceeded(_, _) => p.typ == 3
            case ParameterProblem(_, _) => p.typ == 4
            case PrivateExperimental(_, _) => p.typ in {100, 101, 200, 201}
            case EchoRequest(_, _, _) => p.typ == 128
            case EchoReply(_, _, _) => p.typ == 129
  {
  }

  /** The octets a constructor's packet has before its checksum is filled. */
  lemma BuiltOctets(r: Request)
    requires Build(r).Ok?
    ensures Bytes(Build(r).value, true) ==
            match r
            case ForPacketTooBig(mtu, packet) => [2, 0, 0, 0] + (Four(mtu) + packet)
            case ForEchoRequest(identifier, sequence, payload) =>
              [128, 0, 0, 0] + (Two(identifier) + Two(sequence) + payload)
            case ForEchoReply(identifier, sequence, payload) =>
              [129, 0, 0, 0] + (Two(identifier) + Two(sequence) + payload)
            case ForUnreachable(code, packet) => [1, code, 0, 0] + ([0, 0, 0, 0] + packet)
            case ForParameterProblem(code, pointer, packet) => [4, code, 0, 0] + (Four(pointer) + packet)
            case ForTimeExceeded(code, packet) => [3, code, 0, 0] + ([0, 0, 0, 0] + packet)
  {
    var p := Build(r).value;
    PacketOctets(p);
    assert [p.typ, p.code] + Two(p.checksum) == [p.typ, p.code, 0, 0];
  }

  /** What each type octet parses to, and with which numbers. */
  lemma ParsedOctets(bytes: seq<Byte>)
    requires Parse(bytes).Ok?
    ensures var p := Parse(bytes).value;
            var first := bytes[4] as int * 256 + bytes[5];
            var second := bytes[6] as int * 256 + bytes[7];
            var body := bytes[8..];
            && p.typ == bytes[0] && p.code == bytes[1] && p.checksum == bytes[2] as int * 256 + bytes[3]
            && match bytes[0]
               case 1 => p.message == Unreachable(first * 65536 + second, body)
               case 2 => p.message == PacketTooBig(first * 65536 + second, body)
               case 3 => p.message == TimeExceeded(first * 65536 + second, body)
               case 4 => p.message == ParameterProblem(first * 65536 + second, body)
               case 128 => p.message == EchoRequest(first, second, body)
               case 129 => p.message == EchoReply(first, second, body)
               case typ => typ in {100, 101, 200, 201}
                           && p.message == PrivateExperimental(first * 65536 + second, body)
  {
  }
}
