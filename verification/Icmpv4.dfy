/** ICMPv4 packets: serializing, parsing and header detection. */
module Icmpv4 {
  import opened Prelude
  import opened PacketErrors

  datatype Message =
    | Unreachable(padding: U32, header: seq<Byte>)
    | TimeExceeded(padding: U32, header: seq<Byte>)
    | ParameterProblem(pointer: Byte, unused: (Byte, U16), header: seq<Byte>)
    | Quench(padding: U32, header: seq<Byte>)
    | Redirect(gateway: U32, header: seq<Byte>)
    | Echo(identifier: U16, sequence: U16, payload: seq<Byte>)
    | EchoReply(identifier: U16, sequence: U16, payload: seq<Byte>)
    | Timestamp(identifier: U16, sequence: U16, originate: U32, receive: U32, transmit: U32)
    | TimestampReply(identifier: U16, sequence: U16, originate: U32, receive: U32, transmit: U32)
    | Information(identifier: U16, sequence: U16)
    | InformationReply(identifier: U16, sequence: U16)

  datatype Packet = Packet(typ: Byte, code: Byte, checksum: U16, message: Message)

  /** The type byte each variant is annotated with. */
  function TypeOf(m: Message): Byte {
    match m
    case Unreachable(_, _) => 3
    case TimeExceeded(_, _) => 11
    case ParameterProblem(_, _, _) => 12
    case Quench(_, _) => 4
    case Redirect(_, _) => 5
    case Echo(_, _, _) => 8
    case EchoReply(_, _, _) => 0
    case Timestamp(_, _, _, _, _) => 13
    case TimestampReply(_, _, _, _, _) => 14
    case Information(_, _) => 15
    case InformationReply(_, _) => 16
  }

  predicate KnownType(typ: Byte) {
    typ in {0, 3, 4, 5, 8, 11, 12, 13, 14, 15, 16}
  }

  /** The type byte and the message variant agree. The fields are public, so they need not. */
  predicate WellFormed(p: Packet) {
    p.typ == TypeOf(p.message)
  }

  // ---------------------------------------------------------------- serializing

  /** The four octets after the checksum. */
  function FieldBytes(m: Message): (bs: seq<Byte>)
    ensures |bs| == 4
  {
    match m
    case Unreachable(padding, _) => U32ToBe(padding)
    case TimeExceeded(padding, _) => U32ToBe(padding)
    case Quench(padding, _) => U32ToBe(padding)
    case Redirect(gateway, _) => U32ToBe(gateway)
    case ParameterProblem(pointer, unused, _) => [pointer, unused.0] + U16ToBe(unused.1)
    case Echo(identifier, sequence, _) => U16ToBe(identifier) + U16ToBe(sequence)
    case EchoReply(identifier, sequence, _) => U16ToBe(identifier) + U16ToBe(sequence)
    case Timestamp(identifier, sequence, _, _, _) => U16ToBe(identifier) + U16ToBe(sequence)
    case TimestampReply(identifier, sequence, _, _, _) => U16ToBe(identifier) + U16ToBe(sequence)
    case Information(identifier, sequence) => U16ToBe(identifier) + U16ToBe(sequence)
    case InformationReply(identifier, sequence) => U16ToBe(identifier) + U16ToBe(sequence)
  }

  /** The octets after the first eight. */
  function BodyBytes(m: Message): seq<Byte> {
    match m
    case Unreachable(_, header) => header
    case TimeExceeded(_, header) => header
    case Quench(_, header) => header
    case Redirect(_, header) => header
    case ParameterProblem(_, _, header) => header
    case Echo(_, _, payload) => payload
    case EchoReply(_, _, payload) => payload
    case Timestamp(_, _, originate, receive, transmit) =>
      U32ToBe(originate) + U32ToBe(receive) + U32ToBe(transmit)
    case TimestampReply(_, _, originate, receive, transmit) =>
      U32ToBe(originate) + U32ToBe(receive) + U32ToBe(transmit)
    case Information(_, _) => []
    case InformationReply(_, _) => []
  }

  /** The wire image of a packet. */
  function Bytes(p: Packet, withChecksum: bool): (bs: seq<Byte>)
    ensures |bs| == 8 + |BodyBytes(p.message)|
    ensures bs[0] == p.typ && bs[1] == p.code
    ensures bs[2..4] == U16ToBe(if withChecksum then p.checksum else 0)
    ensures bs[4..8] == FieldBytes(p.message)
    ensures bs[8..] == BodyBytes(p.message)
  {
    [p.typ, p.code] + U16ToBe(if withChecksum then p.checksum else 0) + FieldBytes(p.message) + BodyBytes(p.message)
  }

  lemma Appended(a: seq<Byte>, b: seq<Byte>, c: seq<Byte>)
    ensures [] + a + c == a + c
    ensures [] + a + b == a + b
    ensures [] + a + b + c == (a + b) + c
  {
  }

  lemma AppendedFive(a: seq<Byte>, b: seq<Byte>, c: seq<Byte>, d: seq<Byte>, e: seq<Byte>)
    ensures [] + a + b + c + d + e == (a + b) + (c + d + e)
  {
    assert [] + a + b + c == (a + b) + c;
    assert [] + a + b + c + d == (a + b) + (c + d);
  }

  method GetMessageBytes(m: Message) returns (bytes: seq<Byte>)
    ensures bytes == FieldBytes(m) + BodyBytes(m)
  {
    bytes := [];
    match m {
      case Unreachable(padding, header) =>
        bytes := bytes + U32ToBe(padding);
        bytes := bytes + header;
        Appended(U32ToBe(padding), [], header);
      case TimeExceeded(padding, header) =>
        bytes := bytes + U32ToBe(padding);
        bytes := bytes + header;
        Appended(U32ToBe(padding), [], header);
      case Quench(padding, header) =>
        bytes := bytes + U32ToBe(padding);
        bytes := bytes + header;
        Appended(U32ToBe(padding), [], header);
      case Redirect(padding, header) =>
        bytes := bytes + U32ToBe(padding);
        bytes := bytes + header;
        Appended(U32ToBe(padding), [], header);
      case Echo(identifier, sequence, payload) =>
        bytes := bytes + U16ToBe(identifier);
        bytes := bytes + U16ToBe(sequence);
        bytes := bytes + payload;
        Appended(U16ToBe(identifier), U16ToBe(sequence), payload);
      case EchoReply(identifier, sequence, payload) =>
        bytes := bytes + U16ToBe(identifier);
        bytes := bytes + U16ToBe(sequence);
        bytes := bytes + payload;
        Appended(U16ToBe(identifier), U16ToBe(sequence), payload);
      case ParameterProblem(pointer, padding, header) =>
        bytes := bytes + [pointer];
        bytes := bytes + [padding.0];
        bytes := bytes + U16ToBe(padding.1);
        bytes := bytes + header;
      case Timestamp(identifier, sequence, originate, receive, transmit) =>
        bytes := bytes + U16ToBe(identifier);
        bytes := bytes + U16ToBe(sequence);
        bytes := bytes + U32ToBe(originate);
        bytes := bytes + U32ToBe(receive);
        bytes := bytes + U32ToBe(transmit);
        AppendedFive(U16ToBe(identifier), U16ToBe(sequence), U32ToBe(originate), U32ToBe(receive), U32ToBe(transmit));
      case TimestampReply(identifier, sequence, originate, receive, transmit) =>
        bytes := bytes + U16ToBe(identifier);
        bytes := bytes + U16ToBe(sequence);
        bytes := bytes + U32ToBe(originate);
        bytes := bytes + U32ToBe(receive);
        bytes := bytes + U32ToBe(transmit);
        AppendedFive(U16ToBe(identifier), U16ToBe(sequence), U32ToBe(originate), U32ToBe(receive), U32ToBe(transmit));
      case Information(identifier, sequence) =>
        bytes := bytes + U16ToBe(identifier);
        bytes := bytes + U16ToBe(sequence);
      case InformationReply(identifier, sequence) =>
        bytes := bytes + U16ToBe(identifier);
        bytes := bytes + U16ToBe(sequence);
    }
  }

  method GetBytes(p: Packet, withChecksum: bool) returns (bytes: seq<Byte>)
    ensures bytes == Bytes(p, withChecksum)
  {
    bytes := [];
    bytes := bytes + [p.typ];
    bytes := bytes + [p.code];
    bytes := bytes + U16ToBe(if withChecksum then p.checksum else 0);
    var message := GetMessageBytes(p.message);
    bytes := bytes + message;
  }

  // ---------------------------------------------------------------- parsing

  function ParseIcmp(bytes: seq<Byte>): Result<Packet, ParseError> {
    if |bytes| < 8 then Err(PacketTooSmall(|bytes|)) else
    var typ, code, checksum := bytes[0], bytes[1], U16FromBe(bytes[2..4]);
    match typ
    case 3 => Ok(Packet(typ, code, checksum, Unreachable(U32FromBe(bytes[4..8]), bytes[8..])))
    case 11 => Ok(Packet(typ, code, checksum, TimeExceeded(U32FromBe(bytes[4..8]), bytes[8..])))
    case 12 =>
      Ok(Packet(typ, code, checksum, ParameterProblem(bytes[4], (bytes[5], U16FromBe(bytes[6..8])), bytes[8..])))
    case 4 => Ok(Packet(typ, code, checksum, Quench(U32FromBe(bytes[4..8]), bytes[8..])))
    case 5 => Ok(Packet(typ, code, checksum, Redirect(U32FromBe(bytes[4..8]), bytes[8..])))
    case 8 =>
      Ok(Packet(typ, code, checksum, Echo(U16FromBe(bytes[4..6]), U16FromBe(bytes[6..8]), bytes[8..])))
    case 0 =>
      Ok(Packet(typ, code, checksum, EchoReply(U16FromBe(bytes[4..6]), U16FromBe(bytes[6..8]), bytes[8..])))
    case 15 => Ok(Packet(typ, code, checksum, Information(U16FromBe(bytes[4..6]), U16FromBe(bytes[6..8]))))
    case 16 => Ok(Packet(typ, code, checksum, InformationReply(U16FromBe(bytes[4..6]), U16FromBe(bytes[6..8]))))
    case 13 =>
      if |bytes| < 20 then Err(PacketTooSmall(|bytes|)) else
      Ok(Packet(typ, code, checksum,
                Timestamp(U16FromBe(bytes[4..6]), U16FromBe(bytes[6..8]),
                          U32FromBe(bytes[8..12]), U32FromBe(bytes[12..16]), U32FromBe(bytes[16..20]))))
    case 14 =>
      if |bytes| < 20 then Err(PacketTooSmall(|bytes|)) else
      Ok(Packet(typ, code, checksum,
                TimestampReply(U16FromBe(bytes[4..6]), U16FromBe(bytes[6..8]),
                               U32FromBe(bytes[8..12]), U32FromBe(bytes[12..16]), U32FromBe(bytes[16..20]))))
    case t => Err(UnrecognizedIcmpType(t))
  }

  /** Version 4 in the high nibble and at least five words in the low nibble. */
  predicate HasIpv4Header(bytes: seq<Byte>) {
    |bytes| > 0 && bytes[0] / 0x10 == 4 && bytes[0] % 0x10 >= 5
  }

  /** For bytes that start with an IPv4 header. */
  function Parse(bytes: seq<Byte>): Result<Packet, ParseError> {
    if |bytes| < 20 then Err(PacketTooSmall(|bytes|)) else
    var headerLen := bytes[0] as int % 0x10 * 4;
    if headerLen < 20 || |bytes| < headerLen + 8 then Err(PacketTooSmall(|bytes|)) else
    ParseIcmp(bytes[headerLen..])
  }

  function ParseDgram(bytes: seq<Byte>): Result<Packet, ParseError> {
    ParseIcmp(bytes)
  }

  function ParseAuto(bytes: seq<Byte>): Result<Packet, ParseError> {
    if HasIpv4Header(bytes) then Parse(bytes) else ParseDgram(bytes)
  }

  // ---------------------------------------------------------------- parsing against printing

  /** The part of accepted bytes that parsing keeps. */
  function Kept(bytes: seq<Byte>): seq<Byte>
    requires ParseIcmp(bytes).Ok?
  {
    if bytes[0] == 13 || bytes[0] == 14 then bytes[..20]
    else if bytes[0] == 15 || bytes[0] == 16 then bytes[..8]
    else bytes
  }

  /** The part that parsing drops: what follows the fixed length of types 13 to 16. */
  function Tail(bytes: seq<Byte>): seq<Byte>
    requires ParseIcmp(bytes).Ok?
  {
    bytes[|Kept(bytes)|..]
  }

  /** Which byte strings are accepted, and which error the others get. */
  lemma ParseAccepts(bytes: seq<Byte>)
    ensures ParseIcmp(bytes).Ok?
       <==> |bytes| >= 8 && KnownType(bytes[0]) && (bytes[0] in {13, 14} ==> |bytes| >= 20)
    ensures ParseIcmp(bytes).Err? ==>
              ParseIcmp(bytes).error == if |bytes| >= 8 && !KnownType(bytes[0]) then UnrecognizedIcmpType(bytes[0])
                                        else PacketTooSmall(|bytes|)
    ensures ParseIcmp(bytes).Ok? ==> WellFormed(ParseIcmp(bytes).value)
  {
  }

  lemma FieldReprint(bytes: seq<Byte>)
    requires ParseIcmp(bytes).Ok?
    ensures FieldBytes(ParseIcmp(bytes).value.message) == bytes[4..8]
  {
    U32Reprint(bytes[4..8]);
    U16Reprint(bytes[4..6]);
    U16Reprint(bytes[6..8]);
    assert bytes[4..8] == bytes[4..6] + bytes[6..8];
    assert bytes[4..8] == [bytes[4], bytes[5]] + bytes[6..8];
  }

  lemma BodyReprint(bytes: seq<Byte>)
    requires ParseIcmp(bytes).Ok?
    ensures BodyBytes(ParseIcmp(bytes).value.message) == Kept(bytes)[8..]
  {
    ParseAccepts(bytes);
    if bytes[0] == 13 || bytes[0] == 14 {
      U32Reprint(bytes[8..12]);
      U32Reprint(bytes[12..16]);
      U32Reprint(bytes[16..20]);
      assert bytes[..20][8..] == bytes[8..12] + bytes[12..16] + bytes[16..20];
    }
  }

  /** Parse then print: the printed bytes are the kept prefix, everything outside types 13 to 16. */
  lemma ParseThenPrint(bytes: seq<Byte>)
    requires ParseIcmp(bytes).Ok?
    ensures Bytes(ParseIcmp(bytes).value, true) == Kept(bytes)
    ensures Bytes(ParseIcmp(bytes).value, true) == bytes
       <==> (bytes[0] in {13, 14} ==> |bytes| == 20) && (bytes[0] in {15, 16} ==> |bytes| == 8)
  {
    var p := ParseIcmp(bytes).value;
    FieldReprint(bytes);
    BodyReprint(bytes);
    U16Reprint(bytes[2..4]);
    var kept := Kept(bytes);
    assert kept == [bytes[0], bytes[1]] + bytes[2..4] + bytes[4..8] + kept[8..];
  }

  lemma FieldHalves(a: seq<Byte>, b: seq<Byte>, bytes: seq<Byte>)
    requires |a| == 2 && |b| == 2 && |bytes| >= 8 && bytes[4..8] == a + b
    ensures bytes[4..6] == a && bytes[6..8] == b
  {
    assert bytes[4..6] == bytes[4..8][..2];
    assert bytes[6..8] == bytes[4..8][2..];
  }

  lemma BodyWords(a: seq<Byte>, b: seq<Byte>, c: seq<Byte>, bytes: seq<Byte>)
    requires |a| == 4 && |b| == 4 && |c| == 4 && |bytes| == 20 && bytes[8..] == a + b + c
    ensures bytes[8..12] == a && bytes[12..16] == b && bytes[16..20] == c
  {
    assert bytes[8..12] == bytes[8..][..4];
    assert bytes[12..16] == bytes[8..][4..8];
    assert bytes[16..20] == bytes[8..][8..];
  }

  /** Print then parse gives the packet back exactly when its type byte matches its variant. */
  lemma PrintThenParse(p: Packet)
    ensures ParseIcmp(Bytes(p, true)) == Ok(p) <==> WellFormed(p)
  {
    var bytes := Bytes(p, true);
    ParseAccepts(bytes);
    if WellFormed(p) {
      U16RoundTrip(p.checksum);
      match p.message {
        case Unreachable(padding, _) => U32RoundTrip(padding);
        case TimeExceeded(padding, _) => U32RoundTrip(padding);
        case Quench(padding, _) => U32RoundTrip(padding);
        case Redirect(gateway, _) => U32RoundTrip(gateway);
        case ParameterProblem(pointer, unused, _) =>
          FieldHalves([pointer, unused.0], U16ToBe(unused.1), bytes);
          assert bytes[4] == bytes[4..6][0] && bytes[5] == bytes[4..6][1];
          U16RoundTrip(unused.1);
        case Echo(identifier, sequence, _) => FieldsParse(identifier, sequence, bytes);
        case EchoReply(identifier, sequence, _) => FieldsParse(identifier, sequence, bytes);
        case Timestamp(identifier, sequence, originate, receive, transmit) =>
          FieldsParse(identifier, sequence, bytes);
          TimesParse(originate, receive, transmit, bytes);
        case TimestampReply(identifier, sequence, originate, receive, transmit) =>
          FieldsParse(identifier, sequence, bytes);
          TimesParse(originate, receive, transmit, bytes);
        case Information(identifier, sequence) => FieldsParse(identifier, sequence, bytes);
        case InformationReply(identifier, sequence) => FieldsParse(identifier, sequence, bytes);
      }
    }
  }

  lemma FieldsParse(identifier: U16, sequence: U16, bytes: seq<Byte>)
    requires |bytes| >= 8 && bytes[4..8] == U16ToBe(identifier) + U16ToBe(sequence)
    ensures U16FromBe(bytes[4..6]) == identifier && U16FromBe(bytes[6..8]) == sequence
  {
    FieldHalves(U16ToBe(identifier), U16ToBe(sequence), bytes);
    U16RoundTrip(identifier);
    U16RoundTrip(sequence);
  }

  lemma TimesParse(originate: U32, receive: U32, transmit: U32, bytes: seq<Byte>)
    requires |bytes| == 20 && bytes[8..] == U32ToBe(originate) + U32ToBe(receive) + U32ToBe(transmit)
    ensures U32FromBe(bytes[8..12]) == originate
    ensures U32FromBe(bytes[12..16]) == receive && U32FromBe(bytes[16..20]) == transmit
  {
    BodyWords(U32ToBe(originate), U32ToBe(receive), U32ToBe(transmit), bytes);
    U32RoundTrip(originate);
    U32RoundTrip(receive);
    U32RoundTrip(transmit);
  }

  /** Distinct well-formed packets have distinct wire images. */
  lemma BytesInjective(p: Packet, q: Packet)
    requires WellFormed(p) && WellFormed(q)
    requires Bytes(p, true) == Bytes(q, true)
    ensures p == q
  {
    PrintThenParse(p);
    PrintThenParse(q);
  }

  // ---------------------------------------------------------------- header detection

  /** A header as the detector recognizes it, of the length its own IHL field claims. */
  predicate Ipv4HeaderOfOwnLength(header: seq<Byte>) {
    |header| > 0 && 0x45 <= header[0] <= 0x4F && |header| == 4 * (header[0] - 0x40)
  }

  /** A prefixed header is always found and removed, and a bare packet is never mistaken for one. */
  lemma AutoDetectionUnambiguous(p: Packet, header: seq<Byte>)
    requires WellFormed(p)
    requires header == [] || Ipv4HeaderOfOwnLength(header)
    ensures ParseAuto(header + Bytes(p, true)) == Ok(p)
  {
    PrintThenParse(p);
    var bytes := header + Bytes(p, true);
    if header == [] {
      assert bytes == Bytes(p, true);
    } else {
      assert bytes[0] == header[0];
      assert bytes[|header|..] == Bytes(p, true);
    }
  }

  /**
    What auto-detection does with every byte string: a first octet 0x45 to 0x4F is an IPv4
    header of its own length, to be stripped or too short, whatever comes after it. Anything
    else is ICMP from its first octet on.
   */
  lemma ParseAutoExactly(bytes: seq<Byte>)
    ensures |bytes| > 0 && 0x45 <= bytes[0] <= 0x4F ==>
              var length := 4 * (bytes[0] as int - 0x40);
              ParseAuto(bytes) == if |bytes| >= 20 && |bytes| >= length + 8 then ParseIcmp(bytes[length..])
                                  else Err(PacketTooSmall(|bytes|))
    ensures |bytes| == 0 || bytes[0] < 0x45 || bytes[0] > 0x4F ==> ParseAuto(bytes) == ParseIcmp(bytes)
  {
    if |bytes| > 0 {
      Nibbles(bytes[0]);
    }
  }

  lemma Nibbles(b: Byte)
    ensures b / 0x10 == 4 && b % 0x10 >= 5 <==> 0x45 <= b <= 0x4F
    ensures 0x45 <= b <= 0x4F ==> b % 0x10 == b as int - 0x40
  {
  }

  /** What parsing drops has no part in the result. */
  lemma DroppedTailUnseen(bytes: seq<Byte>)
    requires ParseIcmp(bytes).Ok?
    ensures ParseIcmp(Kept(bytes)) == ParseIcmp(bytes)
  {
    ParseAccepts(bytes);
    ParseThenPrint(bytes);
    PrintThenParse(ParseIcmp(bytes).value);
  }

  lemma HeaderStripped(header: seq<Byte>, message: seq<Byte>)
    requires Ipv4HeaderOfOwnLength(header) && |message| >= 8
    ensures ParseAuto(header + message) == ParseIcmp(message)
  {
    var bytes := header + message;
    assert bytes[0] == header[0];
    assert bytes[|header|..] == message;
    ParseAutoExactly(bytes);
  }

  lemma PaddedParses(p: Packet, padding: seq<Byte>)
    requires WellFormed(p) && p.typ in {13, 14, 15, 16}
    ensures ParseIcmp(Bytes(p, true) + padding) == Ok(p)
  {
    var padded := Bytes(p, true) + padding;
    BodyLength(p);
    ParseAccepts(padded);
    assert Kept(padded) == Bytes(p, true);
    DroppedTailUnseen(padded);
    PrintThenParse(p);
  }

  /** Types 13 to 16 are recovered behind any header, or none, whatever padding follows them. */
  lemma PaddedRecovered(p: Packet, header: seq<Byte>, padding: seq<Byte>)
    requires WellFormed(p) && p.typ in {13, 14, 15, 16}
    requires header == [] || Ipv4HeaderOfOwnLength(header)
    ensures ParseAuto(header + Bytes(p, true) + padding) == Ok(p)
  {
    var padded := Bytes(p, true) + padding;
    PaddedParses(p, padding);
    assert header + Bytes(p, true) + padding == header + padded;
    if header == [] {
      assert header + padded == padded;
      ParseAutoExactly(padded);
    } else {
      HeaderStripped(header, padded);
    }
  }

  /** Auto-detection never changes the answer for bytes the headerless parser accepts. */
  lemma AutoAgreesWithDgram(bytes: seq<Byte>)
    requires ParseDgram(bytes).Ok?
    ensures ParseAuto(bytes) == ParseDgram(bytes)
  {
    ParseAccepts(bytes);
  }

  /** The header length `parse` reads from any first byte. */
  function HeaderLength(bytes: seq<Byte>): nat
    requires |bytes| > 0
  {
    bytes[0] as int % 0x10 * 4
  }

  /** Exactly which bytes the header-stripping parser accepts, and which error the others get. */
  lemma PlainParseAccepts(bytes: seq<Byte>)
    ensures Parse(bytes).Ok? <==> (
              && |bytes| >= 20 && 20 <= HeaderLength(bytes) <= |bytes| - 8
              && var rest := bytes[HeaderLength(bytes)..];
              && KnownType(rest[0]) && (rest[0] in {13, 14} ==> |rest| >= 20))
    ensures Parse(bytes).Ok? ==> Parse(bytes) == ParseIcmp(bytes[HeaderLength(bytes)..])
    ensures Parse(bytes).Err? ==>
              Parse(bytes).error ==
              if |bytes| < 20 || HeaderLength(bytes) < 20 || |bytes| < HeaderLength(bytes) + 8
              then PacketTooSmall(|bytes|)
              else if !KnownType(bytes[HeaderLength(bytes)]) then UnrecognizedIcmpType(bytes[HeaderLength(bytes)])
              else PacketTooSmall(|bytes| - HeaderLength(bytes))
  {
    if |bytes| >= 20 && 20 <= HeaderLength(bytes) <= |bytes| - 8 {
      ParseAccepts(bytes[HeaderLength(bytes)..]);
    }
  }

  /** Stripping a header from a bare packet never gives that packet back. */
  lemma PlainParseNeverRecovers(p: Packet)
    requires WellFormed(p)
    ensures Parse(Bytes(p, true)) != Ok(p)
  {
    var bytes := Bytes(p, true);
    PlainParseAccepts(bytes);
    if Parse(bytes).Ok? {
      var rest := bytes[HeaderLength(bytes)..];
      ParseThenPrint(rest);
      assert |Kept(rest)| <= |rest| < |bytes|;
    }
  }

  /**
    Exactly which well-formed bare packets plain `parse` misreads, and as what: an Echo,
    Redirect, Time Exceeded or Parameter Problem whose body has at least 4 * typ bytes and
    reads as an ICMP message from its offset 4 * typ - 8 on. It rejects all others.
   */
  lemma PlainParseMisreadsExactly(p: Packet)
    requires WellFormed(p)
    ensures Parse(Bytes(p, true)).Ok? <==> (
              && p.typ in {5, 8, 11, 12}
              && var body := BodyBytes(p.message);
              && |body| >= 4 * p.typ as int
              && var inner := body[4 * p.typ as int - 8..];
              && KnownType(inner[0]) && (inner[0] in {13, 14} ==> |inner| >= 20))
    ensures Parse(Bytes(p, true)).Ok? ==>
              && Parse(Bytes(p, true)) != Ok(p)
              && Parse(Bytes(p, true)) == ParseIcmp(BodyBytes(p.message)[4 * p.typ as int - 8..])
  {
    var bytes := Bytes(p, true);
    PlainParseAccepts(bytes);
    PlainParseNeverRecovers(p);
    TypeAsHeaderLength(p);
    if p.typ in {5, 8, 11, 12} && |BodyBytes(p.message)| >= 4 * p.typ as int {
      assert bytes[4 * p.typ as int..] == bytes[8..][4 * p.typ as int - 8..];
    }
  }

  /** Which type octets, read as a first octet, claim a header that leaves room for a message. */
  lemma TypeAsHeaderLength(p: Packet)
    requires WellFormed(p)
    ensures var bytes := Bytes(p, true);
            && (|bytes| >= 20 && 20 <= HeaderLength(bytes) <= |bytes| - 8
                <==> p.typ in {5, 8, 11, 12} && |BodyBytes(p.message)| >= 4 * p.typ as int)
            && (p.typ in {5, 8, 11, 12} ==> HeaderLength(bytes) == 4 * p.typ as int)
  {
    BodyLength(p);
  }

  lemma BodyLength(p: Packet)
    requires WellFormed(p)
    ensures p.typ in {13, 14} ==> |Bytes(p, true)| == 20
    ensures p.typ in {15, 16} ==> |Bytes(p, true)| == 8
  {
  }

  lemma ParseEightZeros()
    ensures ParseIcmp(Zeros(8)) == Ok(Packet(0, 0, 0, EchoReply(0, 0, [])))
  {
    var p := Packet(0, 0, 0, EchoReply(0, 0, []));
    PrintThenParse(p);
    assert Bytes(p, true) == Zeros(8);
  }

  /** Such packets exist: a bare Redirect of twenty zero bytes reads as a 20-byte header and an Echo Reply. */
  lemma PlainParseMisreadsRedirect(code: Byte, checksum: U16, gateway: U32)
    ensures var p := Packet(5, code, checksum, Redirect(gateway, Zeros(20)));
            && ParseAuto(Bytes(p, true)) == Ok(p)
            && Parse(Bytes(p, true)) == Ok(Packet(0, 0, 0, EchoReply(0, 0, [])))
  {
    var p := Packet(5, code, checksum, Redirect(gateway, Zeros(20)));
    AutoDetectionUnambiguous(p, []);
    assert [] + Bytes(p, true) == Bytes(p, true);
    assert Zeros(20)[12..] == Zeros(8);
    PlainParseMisreadsExactly(p);
    ParseEightZeros();
  }
}
