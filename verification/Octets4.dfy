/** The ICMPv4 wire format octet by octet, apart from the printer and parser that share it. */
module Octets4 {
  import opened Prelude
  import opened PacketErrors
  import opened Icmpv4
  import opened Icmpv4Build

  /** A 16-bit field, most significant octet first. */
  function Two(v: U16): seq<Byte> {
    [v / 256, v % 256]
  }

  /** A 32-bit field, most significant octet first. */
  function Four(v: U32): seq<Byte> {
    [v / 16777216, v / 65536 % 256, v / 256 % 256, v % 256]
  }

  lemma U32Octets(v: U32)
    ensures U32ToBe(v) == Four(v)
  {
    HighOctet(v, v / 65536 / 256);
    LowOctets(v, v / 65536, v % 65536 / 256);
  }

  lemma HighOctet(v: U32, q: nat)
    requires q * 16777216 <= v < (q + 1) * 16777216
    ensures v / 16777216 == q
  {
  }

  lemma LowOctets(v: U32, high: nat, q: nat)
    requires high * 65536 + q * 256 <= v < high * 65536 + (q + 1) * 256 && q < 256
    ensures v / 256 % 256 == q
    ensures v % 256 == v - high * 65536 - q * 256
  {
    assert v / 256 == high * 256 + q;
  }

  /** The octets after the checksum, variant by variant. */
  function Layout(m: Message): seq<Byte> {
    match m
    case Unreachable(padding, header) => Four(padding) + header
    case TimeExceeded(padding, header) => Four(padding) + header
    case ParameterProblem(pointer, unused, header) => [pointer, unused.0] + Two(unused.1) + header
    case Quench(padding, header) => Four(padding) + header
    case Redirect(gateway, header) => Four(gateway) + header
    case Echo(identifier, sequence, payload) => Two(identifier) + Two(sequence) + payload
    case EchoReply(identifier, sequence, payload) => Two(identifier) + Two(sequence) + payload
    case Timestamp(identifier, sequence, originate, receive, transmit) =>
      Two(identifier) + Two(sequence) + Four(originate) + Four(receive) + Four(transmit)
    case TimestampReply(identifier, sequence, originate, receive, transmit) =>
      Two(identifier) + Two(sequence) + Four(originate) + Four(receive) + Four(transmit)
    case Information(identifier, sequence) => Two(identifier) + Two(sequence)
    case InformationReply(identifier, sequence) => Two(identifier) + Two(sequence)
  }

  lemma MessageOctets(m: Message)
    ensures FieldBytes(m) + BodyBytes(m) == Layout(m)
  {
    match m {
      case Unreachable(padding, _) => U32Octets(padding);
      case TimeExceeded(padding, _) => U32Octets(padding);
      case Quench(padding, _) => U32Octets(padding);
      case Redirect(gateway, _) => U32Octets(gateway);
      case Timestamp(_, _, originate, receive, transmit) =>
        U32Octets(originate);
        U32Octets(receive);
        U32Octets(transmit);
      case TimestampReply(_, _, originate, receive, transmit) =>
        U32Octets(originate);
        U32Octets(receive);
        U32Octets(transmit);
      case _ =>
    }
  }

  /** The octets of every packet, well formed or not. */
  lemma PacketOctets(p: Packet)
    ensures Bytes(p, true) == [p.typ, p.code] + Two(p.checksum) + Layout(p.message)
  {
    MessageOctets(p.message);
  }

  /** The type octet of each variant. */
  lemma TypeOctets(p: Packet)
    ensures WellFormed(p) <==>
            p.typ == match p.message
                     case EchoReply(_, _, _) => 0
                     case Unreachable(_, _) => 3
                     case Quench(_, _) => 4
                     case Redirect(_, _) => 5
                     case Echo(_, _, _) => 8
                     case TimeExceeded(_, _) => 11
                     case ParameterProblem(_, _, _) => 12
                     case Timestamp(_, _, _, _, _) => 13
                     case TimestampReply(_, _, _, _, _) => 14
                     case Information(_, _) => 15
                     case InformationReply(_, _) => 16
  {
  }

  /** Which bytes parse, by length and first octet, and the error of all others. */
  lemma ParsedTypes(bytes: seq<Byte>)
    ensures |bytes| < 8 ==> ParseIcmp(bytes) == Err(PacketTooSmall(|bytes|))
    ensures |bytes| >= 8 && bytes[0] !in {0, 3, 4, 5, 8, 11, 12, 13, 14, 15, 16} ==>
              ParseIcmp(bytes) == Err(UnrecognizedIcmpType(bytes[0]))
    ensures |bytes| >= 8 && bytes[0] in {0, 3, 4, 5, 8, 11, 12, 15, 16} ==> ParseIcmp(bytes).Ok?
    ensures |bytes| >= 8 && bytes[0] in {13, 14} ==>
              if |bytes| >= 20 then ParseIcmp(bytes).Ok? else ParseIcmp(bytes) == Err(PacketTooSmall(|bytes|))
  {
    ParseAccepts(bytes);
  }

  /** The octets a constructor's packet has before its checksum is filled. */
  lemma BuiltOctets(r: Request)
    requires Build(r).Ok?
    ensures Bytes(Build(r).value, true) ==
            match r
            case ForEchoReply(identifier, sequence, payload) =>
              [0, 0, 0, 0] + (Two(identifier) + Two(sequence) + payload)
            case ForEchoRequest(identifier, sequence, payload) =>
              [8, 0, 0, 0] + (Two(identifier) + Two(sequence) + payload)
            case ForTimestampRequest(identifier, sequence, originate, receive, transmit) =>
              [13, 0, 0, 0] + (Two(identifier) + Two(sequence) + Four(originate) + Four(receive) + Four(transmit))
            case ForTimestampReply(identifier, sequence, originate, receive, transmit) =>
              [14, 0, 0, 0] + (Two(identifier) + Two(sequence) + Four(originate) + Four(receive) + Four(transmit))
            case ForUnreachable(code, packet) => [3, code, 0, 0] + ([0, 0, 0, 0] + packet)
            case ForParameterProblem(code, pointer, packet) => [12, 0, 0, 0] + ([pointer, 0] + [0, 0] + packet)
            case ForTimeExceeded(code, packet) => [11, code, 0, 0] + ([0, 0, 0, 0] + packet)
  {
    var p := Build(r).value;
    PacketOctets(p);
    assert [p.typ, p.code] + Two(p.checksum) == [p.typ, p.code, 0, 0];
  }

  /** The first eight octets as numbers: type, code, checksum, then two 16-bit fields or one 32-bit field. */
  lemma ParsedOctets(bytes: seq<Byte>)
    requires ParseIcmp(bytes).Ok?
    ensures var p := ParseIcmp(bytes).value;
            var first := bytes[4] as int * 256 + bytes[5];
            var second := bytes[6] as int * 256 + bytes[7];
            var body := bytes[8..];
            && p.typ == bytes[0] && p.code == bytes[1] && p.checksum == bytes[2] as int * 256 + bytes[3]
            && match bytes[0]
               case 0 => p.message == EchoReply(first, second, body)
               case 3 => p.message == Unreachable(first * 65536 + second, body)
               case 4 => p.message == Quench(first * 65536 + second, body)
               case 5 => p.message == Redirect(first * 65536 + second, body)
               case 8 => p.message == Echo(first, second, body)
               case 11 => p.message == TimeExceeded(first * 65536 + second, body)
               case 12 => p.message == ParameterProblem(bytes[4], (bytes[5], second), body)
               case 13 =>
                 |bytes| >= 20
                 && p.message == Timestamp(first, second, Number(bytes[8..12]), Number(bytes[12..16]),
                                           Number(bytes[16..20]))
               case 14 =>
                 |bytes| >= 20
                 && p.message == TimestampReply(first, second, Number(bytes[8..12]), Number(bytes[12..16]),
                                                Number(bytes[16..20]))
               case 15 => p.message == Information(first, second)
               case 16 => p.message == InformationReply(first, second)
               case _ => false
  {
  }

  /** Four octets as a number, most significant first. */
  function Number(bs: seq<Byte>): U32
    requires |bs| == 4
  {
    ((bs[0] as int * 256 + bs[1]) * 256 + bs[2]) * 256 + bs[3]
  }
}
