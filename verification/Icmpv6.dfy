/** ICMPv6 packets: serializing, parsing, and the checksum over the IPv6 pseudo-header. */
module Icmpv6 {
  import opened Prelude
  import opened PacketErrors
  import opened Checksum

  datatype Message =
    | Unreachable(unused: U32, invokingPacket: seq<Byte>)
    | PacketTooBig(mtu: U32, invokingPacket: seq<Byte>)
    | TimeExceeded(unused: U32, invokingPacket: seq<Byte>)
    | ParameterProblem(pointer: U32, invokingPacket: seq<Byte>)
    | PrivateExperimental(padding: U32, payload: seq<Byte>)
    | EchoRequest(identifier: U16, sequence: U16, payload: seq<Byte>)
    | EchoReply(identifier: U16, sequence: U16, payload: seq<Byte>)

  datatype Packet = Packet(typ: Byte, code: Byte, checksum: U16, message: Message)

  /** The type bytes that parse to each variant; PrivateExperimental has four. */
  function TypesOf(m: Message): set<Byte> {
    match m
    case Unreachable(_, _) => {1}
    case PacketTooBig(_, _) => {2}
    case TimeExceeded(_, _) => {3}
    case ParameterProblem(_, _) => {4}
    case PrivateExperimental(_, _) => {100, 101, 200, 201}
    case EchoRequest(_, _, _) => {128}
    case EchoReply(_, _, _) => {129}
  }

  predicate KnownType(typ: Byte) {
    typ in {1, 2, 3, 4, 100, 101, 128, 129, 200, 201}
  }

  predicate WellFormed(p: Packet) {
    p.typ in TypesOf(p.message)
  }

  // ---------------------------------------------------------------- serializing

  function FieldBytes(m: Message): (bs: seq<Byte>)
    ensures |bs| == 4
  {
    match m
    case Unreachable(unused, _) => U32ToBe(unused)
    case PacketTooBig(mtu, _) => U32ToBe(mtu)
    case TimeExceeded(unused, _) => U32ToBe(unused)
    case ParameterProblem(pointer, _) => U32ToBe(pointer)
    case PrivateExperimental(padding, _) => U32ToBe(padding)
    case EchoRequest(identifier, sequence, _) => U16ToBe(identifier) + U16ToBe(sequence)
    case EchoReply(identifier, sequence, _) => U16ToBe(identifier) + U16ToBe(sequence)
  }

  function BodyBytes(m: Message): seq<Byte> {
    match m
    case Unreachable(_, invokingPacket) => invokingPacket
    case PacketTooBig(_, invokingPacket) => invokingPacket
    case TimeExceeded(_, invokingPacket) => invokingPacket
    case ParameterProblem(_, invokingPacket) => invokingPacket
    case PrivateExperimental(_, payload) => payload
    case EchoRequest(_, _, payload) => payload
    case EchoReply(_, _, payload) => payload
  }

  function Bytes(p: Packet, withChecksum: bool): (bs: seq<Byte>)
    ensures |bs| == 8 + |BodyBytes(p.message)|
    ensures bs[0] == p.typ && bs[1] == p.code
    ensures bs[2..4] == U16ToBe(if withChecksum then p.checksum else 0)
    ensures bs[4..8] == FieldBytes(p.message)
    ensures bs[8..] == BodyBytes(p.message)
  {
    [p.typ, p.code] + U16ToBe(if withChecksum then p.checksum else 0) + FieldBytes(p.message) + BodyBytes(p.message)
  }

  method GetMessageBytes(m: Message) returns (bytes: seq<Byte>)
    ensures bytes == FieldBytes(m) + BodyBytes(m)
  {
    bytes := [];
    match m {
      case Unreachable(field1, field2) =>
        bytes := bytes + U32ToBe(field1);
        bytes := bytes + field2;
      case PacketTooBig(field1, field2) =>
        bytes := bytes + U32ToBe(field1);
        bytes := bytes + field2;
      case TimeExceeded(field1, field2) =>
        bytes := bytes + U32ToBe(field1);
        bytes := bytes + field2;
      case ParameterProblem(field1, field2) =>
        bytes := bytes + U32ToBe(field1);
        bytes := bytes + field2;
      case PrivateExperimental(field1, field2) =>
        bytes := bytes + U32ToBe(field1);
        bytes := bytes + field2;
      case EchoRequest(identifier, sequence, payload) =>
        bytes := bytes + U16ToBe(identifier);
        bytes := bytes + U16ToBe(sequence);
        bytes := bytes + payload;
      case EchoReply(identifier, sequence, payload) =>
        bytes := bytes + U16ToBe(identifier);
        bytes := bytes + U16ToBe(sequence);
        bytes := bytes + payload;
    }
  }

  method GetBytes(p: Packet, withChecksum: bool) returns (bytes: seq<Byte>)
    ensures bytes == Bytes(p, withChecksum)
  {
    bytes := [];
    bytes := bytes + [p.typ];
    bytes := bytes + [p.code];
    bytes := bytes + U16ToBe(if withChecksum then p.checksum else 0);
    var message := GetMessageBytes(p.message);
    bytes := bytes + message;
  }

  // ---------------------------------------------------------------- parsing

  function Parse(bytes: seq<Byte>): Result<Packet, ParseError> {
    if |bytes| < 8 then Err(PacketTooSmall(|bytes|)) else
    var typ, code, checksum := bytes[0], bytes[1], U16FromBe(bytes[2..4]);
    var nextField := U32FromBe(bytes[4..8]);
    var payload := bytes[8..];
    match typ
    case 1 => Ok(Packet(typ, code, checksum, Unreachable(nextField, payload)))
    case 2 => Ok(Packet(typ, code, checksum, PacketTooBig(nextField, payload)))
    case 3 => Ok(Packet(typ, code, checksum, TimeExceeded(nextField, payload)))
    case 4 => Ok(Packet(typ, code, checksum, ParameterProblem(nextField, payload)))
    case 100 => Ok(Packet(typ, code, checksum, PrivateExperimental(nextField, payload)))
    case 101 => Ok(Packet(typ, code, checksum, PrivateExperimental(nextField, payload)))
    case 200 => Ok(Packet(typ, code, checksum, PrivateExperimental(nextField, payload)))
    case 201 => Ok(Packet(typ, code, checksum, PrivateExperimental(nextField, payload)))
    case 128 => Ok(Packet(typ, code, checksum, EchoRequest(U16FromBe(bytes[4..6]), U16FromBe(bytes[6..8]), payload)))
    case 129 => Ok(Packet(typ, code, checksum, EchoReply(U16FromBe(bytes[4..6]), U16FromBe(bytes[6..8]), payload)))
    case t => Err(UnrecognizedIcmpType(t))
  }

  /** Exactly the accepted byte strings, the error of every other, and a loss-free reprint. */
  lemma ParseThenPrint(bytes: seq<Byte>)
    ensures Parse(bytes).Ok? <==> |bytes| >= 8 && KnownType(bytes[0])
    ensures Parse(bytes).Err? ==>
              Parse(bytes).error == if |bytes| < 8 then PacketTooSmall(|bytes|) else UnrecognizedIcmpType(bytes[0])
    ensures Parse(bytes).Ok? ==> WellFormed(Parse(bytes).value) && Bytes(Parse(bytes).value, true) == bytes
  {
    if |bytes| >= 8 && KnownType(bytes[0]) {
      U16Reprint(bytes[2..4]);
      U32Reprint(bytes[4..8]);
      U16Reprint(bytes[4..6]);
      U16Reprint(bytes[6..8]);
      assert bytes[4..8] == bytes[4..6] + bytes[6..8];
      assert FieldBytes(Parse(bytes).value.message) == bytes[4..8];
      assert bytes == [bytes[0], bytes[1]] + bytes[2..4] + bytes[4..8] + bytes[8..];
    }
  }

  lemma FieldsParse(identifier: U16, sequence: U16, bytes: seq<Byte>)
    requires |bytes| >= 8 && bytes[4..8] == U16ToBe(identifier) + U16ToBe(sequence)
    ensures U16FromBe(bytes[4..6]) == identifier && U16FromBe(bytes[6..8]) == sequence
  {
    assert bytes[4..6] == bytes[4..8][..2] == U16ToBe(identifier);
    assert bytes[6..8] == bytes[4..8][2..] == U16ToBe(sequence);
    U16RoundTrip(identifier);
    U16RoundTrip(sequence);
  }

  /** Print then parse gives the packet back exactly when its type byte is one of its variant's. */
  lemma PrintThenParse(p: Packet)
    ensures Parse(Bytes(p, true)) == Ok(p) <==> WellFormed(p)
  {
    var bytes := Bytes(p, true);
    ParseThenPrint(bytes);
    if WellFormed(p) {
      U16RoundTrip(p.checksum);
      match p.message {
        case Unreachable(field, _) => U32RoundTrip(field);
        case PacketTooBig(field, _) => U32RoundTrip(field);
        case TimeExceeded(field, _) => U32RoundTrip(field);
        case ParameterProblem(field, _) => U32RoundTrip(field);
        case PrivateExperimental(field, _) => U32RoundTrip(field);
        case EchoRequest(identifier, sequence, _) => FieldsParse(identifier, sequence, bytes);
        case EchoReply(identifier, sequence, _) => FieldsParse(identifier, sequence, bytes);
      }
    }
  }

  // ---------------------------------------------------------------- the checksum routines

  function Segments(ip: Ipv6Addr): (words: seq<U16>)
    ensures |words| == 8
  {
    seq(8, i requires 0 <= i < 8 => Word(ip[2 * i], ip[2 * i + 1]))
  }

  function Total(words: seq<U16>): nat {
    if words == [] then 0 else words[0] + Total(words[1..])
  }

  function Ipv6SumWords(ip: Ipv6Addr): U32 {
    AddressSum(ip);
    Total(Segments(ip))
  }

  /** Summing the eight segments is summing the sixteen octets as words, and cannot overflow. */
  lemma AddressSum(ip: Ipv6Addr)
    ensures Total(Segments(ip)) == WordSum(ip) <= 8 * 0xFFFF
  {
    AddressSumFrom(ip, 0);
    assert Segments(ip)[0..] == Segments(ip) && ip[0..] == ip;
    WordSumAtMost(ip);
  }

  lemma {:induction false} AddressSumFrom(ip: Ipv6Addr, k: nat)
    requires k <= 8
    ensures Total(Segments(ip)[k..]) == WordSum(ip[2 * k..])
    decreases 8 - k
  {
    if k < 8 {
      AddressSumFrom(ip, k + 1);
      assert Segments(ip)[k..][1..] == Segments(ip)[k + 1..];
      assert ip[2 * k..][2..] == ip[2 * (k + 1)..];
    }
  }

  /** Everything the code adds up, before any wrap. The length is cast to u32, which truncates. */
  function CoveredSum(p: Packet, source: Ipv6Addr, dest: Ipv6Addr): nat {
    WordSum(source) + WordSum(dest) + 58 + |Bytes(p, false)| % TWO_POW_32 + WordSum(Bytes(p, false))
  }

  function PacketChecksum(p: Packet, source: Ipv6Addr, dest: Ipv6Addr): U16 {
    FoldedComplement(CoveredSum(p, source, dest))
  }

  function Filled(p: Packet, source: Ipv6Addr, dest: Ipv6Addr): Packet {
    p.(checksum := PacketChecksum(p, source, dest))
  }

  predicate Verifies(p: Packet, source: Ipv6Addr, dest: Ipv6Addr) {
    PacketChecksum(p, source, dest) == p.checksum
  }

  method CalculateChecksum(p: Packet, source: Ipv6Addr, dest: Ipv6Addr) returns (checksum: U16, wrapped: bool)
    ensures checksum == PacketChecksum(p, source, dest)
    ensures wrapped <==> CoveredSum(p, source, dest) >= TWO_POW_32
  {
    var sum := SumPseudoHeader(source, dest);
    var bytes := GetBytes(p, false);
    sum, wrapped := AddLengthAndWords(sum, bytes);
    checksum := FoldAndComplement(sum);
  }

  /** The two addresses and the next-header value. */
  method SumPseudoHeader(source: Ipv6Addr, dest: Ipv6Addr) returns (sum: U32)
    ensures sum == WordSum(source) + WordSum(dest) + 58
  {
    AddressSum(source);
    AddressSum(dest);
    sum := 0;
    sum := sum + Ipv6SumWords(source);
    sum := sum + Ipv6SumWords(dest);
    sum := sum + 58;
  }

  /** `sum += len as u32; sum += sum_big_endian_words(&bytes)`: wrapping at each addition is wrapping once. */
  method AddLengthAndWords(start: U32, bytes: seq<Byte>) returns (sum: U32, wrapped: bool)
    ensures sum == (start + |bytes| % TWO_POW_32 + WordSum(bytes)) % TWO_POW_32
    ensures wrapped <==> start + |bytes| % TWO_POW_32 + WordSum(bytes) >= TWO_POW_32
  {
    var len: U32 := |bytes| % TWO_POW_32;
    var withLen := AddU32(start, len);
    var words, over := SumBigEndianWords(bytes);
    var total := AddU32(withLen.0, words);
    sum, wrapped := total.0, withLen.1 || over || total.1;
    ghost var carries := (if withLen.1 then 1 else 0) + WordSum(bytes) / TWO_POW_32 + (if total.1 then 1 else 0);
    WrapsTo(start + len + WordSum(bytes), carries, sum);
  }

  method WithChecksum(p: Packet, source: Ipv6Addr, dest: Ipv6Addr) returns (filled: Packet)
    ensures filled == Filled(p, source, dest)
  {
    var checksum, wrapped := CalculateChecksum(p, source, dest);
    filled := p.(checksum := checksum);
  }

  method VerifyChecksum(p: Packet, source: Ipv6Addr, dest: Ipv6Addr) returns (ok: bool)
    ensures ok == Verifies(p, source, dest)
  {
    var checksum, wrapped := CalculateChecksum(p, source, dest);
    ok := checksum == p.checksum;
  }

  // ---------------------------------------------------------------- against RFC 1071 and RFC 8200

  /** The pseudo-header of section 8.1 of RFC 8200 for upper-layer protocol 58. */
  function PseudoHeader(source: Ipv6Addr, dest: Ipv6Addr, len: U32): seq<Byte> {
    source + dest + U32ToBe(len) + [0, 0, 0, 58]
  }

  lemma PseudoHeaderSum(source: Ipv6Addr, dest: Ipv6Addr, len: U32, rest: seq<Byte>)
    ensures WordSum(PseudoHeader(source, dest, len) + rest)
         == WordSum(source) + WordSum(dest) + len / 0x1_0000 + len % 0x1_0000 + 58 + WordSum(rest)
  {
    var high, low := U16ToBe(len / 0x1_0000), U16ToBe(len % 0x1_0000);
    var header := PseudoHeader(source, dest, len);
    assert header + rest == source + (dest + (high + (low + ([0, 0] + ([0, 58] + rest)))));
    WordSumAppend(source, dest + (high + (low + ([0, 0] + ([0, 58] + rest)))));
    WordSumAppend(dest, high + (low + ([0, 0] + ([0, 58] + rest))));
    WordSumAppend(high, low + ([0, 0] + ([0, 58] + rest)));
    WordSumAppend(low, [0, 0] + ([0, 58] + rest));
    WordSumAppend([0, 0], [0, 58] + rest);
    WordSumAppend([0, 58], rest);
    OneWordSum(len / 0x1_0000);
    OneWordSum(len % 0x1_0000);
    assert WordSum([0, 0]) == 0 && WordSum([0, 58]) == 58;
  }

  /** Adding the length as one u32 and as two 16-bit words is the same to the folded sum. */
  lemma LengthAsOneWord(rest: nat, len: U32)
    requires rest > 0
    ensures Norm(rest + len) == Norm(rest + len / 0x1_0000 + len % 0x1_0000)
  {
    assert rest + len == rest + len / 0x1_0000 + len % 0x1_0000 + 0xFFFF * (len / 0x1_0000);
    NormShift(rest + len / 0x1_0000 + len % 0x1_0000, len / 0x1_0000);
  }

  /** The reference sum of any bytes whose words are those of the message with the length in two words. */
  lemma ReferenceSum(all: seq<Byte>, rest: nat, len: U32)
    requires rest > 0 && WordSum(all) == rest + len / 0x1_0000 + len % 0x1_0000
    ensures RfcSum(all) == Norm(rest + len)
  {
    RfcSumIsNorm(all);
    LengthAsOneWord(rest, len);
  }

  lemma RealBytesSum(p: Packet, source: Ipv6Addr, dest: Ipv6Addr)
    requires |Bytes(p, false)| < TWO_POW_32
    ensures RfcSum(PseudoHeader(source, dest, |Bytes(p, false)|) + Bytes(p, false)) == Norm(CoveredSum(p, source, dest))
  {
    var bytes := Bytes(p, false);
    var rest := WordSum(source) + WordSum(dest) + 58 + WordSum(bytes);
    assert CoveredSum(p, source, dest) == rest + |bytes|;
    PseudoHeaderSum(source, dest, |bytes|, bytes);
    ReferenceSum(PseudoHeader(source, dest, |bytes|) + bytes, rest, |bytes|);
  }

  /** For lengths that fit the pseudo-header, the code meets the RFCs exactly when its u32 does not overflow. */
  lemma ChecksumMeetsRfc(p: Packet, source: Ipv6Addr, dest: Ipv6Addr)
    requires |Bytes(p, false)| < TWO_POW_32
    ensures PacketChecksum(p, source, dest)
         == RfcChecksum(PseudoHeader(source, dest, |Bytes(p, false)|) + Bytes(p, false))
       <==> CoveredSum(p, source, dest) < TWO_POW_32
    ensures |Bytes(p, false)| <= 131_039 ==> CoveredSum(p, source, dest) < TWO_POW_32
  {
    RealBytesSum(p, source, dest);
    CoveredSumBound(p, source, dest);
    FoldedComplementExact(CoveredSum(p, source, dest));
    WrapHarmlessBelow(CoveredSum(p, source, dest));
  }

  lemma CoveredSplit(p: Packet)
    ensures WordSum(Bytes(p, false)) == Word(p.typ, p.code) + WordSum(Bytes(p, false)[4..])
  {
    var bytes := Bytes(p, false);
    assert bytes[2] == bytes[2..4][0] && bytes[3] == bytes[2..4][1];
    assert bytes[2..][2..] == bytes[4..];
    assert WordSum(bytes[2..]) == Word(bytes[2], bytes[3]) + WordSum(bytes[4..]);
  }

  lemma CoveredSumBound(p: Packet, source: Ipv6Addr, dest: Ipv6Addr)
    ensures |Bytes(p, false)| <= 131_039 ==> CoveredSum(p, source, dest) < TWO_POW_32
    ensures |Bytes(p, false)| < TWO_POW_32 ==> CoveredSum(p, source, dest) < 0xFFFF * TWO_POW_32
  {
    CoveredSplit(p);
    WordSumAtMost(source);
    WordSumAtMost(dest);
    WordSumAtMost(Bytes(p, false)[4..]);
  }

  predicate AllOnes(bs: seq<Byte>) {
    forall i :: 0 <= i < |bs| ==> bs[i] == 0xFF
  }

  /** One byte more overflows when addresses and message are all ones. */
  lemma OverflowAt131040(p: Packet, source: Ipv6Addr, dest: Ipv6Addr)
    requires |Bytes(p, false)| == 131_040
    requires AllOnes(source) && AllOnes(dest)
    requires p.typ == 0xFF && p.code == 0xFF && AllOnes(Bytes(p, false)[4..])
    ensures CoveredSum(p, source, dest) >= TWO_POW_32
  {
    CoveredSplit(p);
    WordSumAtMost(source);
    WordSumAtMost(dest);
    WordSumAtMost(Bytes(p, false)[4..]);
  }

  /** Such messages exist at every length. */
  lemma OnesMessage(payload: seq<Byte>, checksum: U16)
    requires AllOnes(payload)
    ensures var p := Packet(0xFF, 0xFF, checksum, EchoReply(0xFFFF, 0xFFFF, payload));
            |Bytes(p, false)| == 8 + |payload| && AllOnes(Bytes(p, false)[4..])
  {
    var p := Packet(0xFF, 0xFF, checksum, EchoReply(0xFFFF, 0xFFFF, payload));
    assert U16ToBe(0xFFFF) == [0xFF, 0xFF];
    assert Bytes(p, false)[4..] == Bytes(p, false)[4..8] + Bytes(p, false)[8..];
  }

  /** The receiver's test over pseudo-header and message, less the all-ones encoding. */
  predicate PassesReceiverTest(p: Packet, source: Ipv6Addr, dest: Ipv6Addr)
    requires |Bytes(p, true)| < TWO_POW_32
  {
    RfcAccepts(PseudoHeader(source, dest, |Bytes(p, true)|) + Bytes(p, true)) && p.checksum != 0xFFFF
  }

  /** Verification is that test exactly when the u32 does not overflow; otherwise it accepts nothing the test does. */
  lemma VerifyMeansRfcTest(p: Packet, source: Ipv6Addr, dest: Ipv6Addr)
    requires |Bytes(p, true)| < TWO_POW_32
    ensures CoveredSum(p, source, dest) < TWO_POW_32 ==>
              (Verifies(p, source, dest) <==> PassesReceiverTest(p, source, dest))
    ensures CoveredSum(p, source, dest) >= TWO_POW_32 ==>
              !(Verifies(p, source, dest) && PassesReceiverTest(p, source, dest))
    ensures |Bytes(p, true)| <= 131_039 ==> CoveredSum(p, source, dest) < TWO_POW_32
  {
    ReceivedSum(p, source, dest);
    StoredWordTest(CoveredSum(p, source, dest), p.checksum);
    FoldedComplementExact(CoveredSum(p, source, dest));
    CoveredSumBound(p, source, dest);
    WrapHarmlessBelow(CoveredSum(p, source, dest));
  }

  /** Where the two differ: a stored 0xFFFF is never verified, and passes the RFC's test over multiples of 65535. */
  lemma AllOnesRefused(p: Packet, source: Ipv6Addr, dest: Ipv6Addr)
    requires |Bytes(p, true)| < TWO_POW_32 && CoveredSum(p, source, dest) < TWO_POW_32
    requires p.checksum == 0xFFFF
    ensures !Verifies(p, source, dest)
    ensures RfcAccepts(PseudoHeader(source, dest, |Bytes(p, true)|) + Bytes(p, true))
       <==> CoveredSum(p, source, dest) % 0xFFFF == 0
  {
    VerifyMeansRfcTest(p, source, dest);
    ReceivedSum(p, source, dest);
    AllOnesStored(CoveredSum(p, source, dest));
  }

  lemma EmptyEchoSum(identifier: U16, sequence: U16, checksum: U16, source: Ipv6Addr, dest: Ipv6Addr)
    ensures CoveredSum(Packet(128, 0, checksum, EchoRequest(identifier, sequence, [])), source, dest)
         == WordSum(source) + WordSum(dest) + 58 + 8 + 0x8000 + identifier + sequence
  {
    var p := Packet(128, 0, checksum, EchoRequest(identifier, sequence, []));
    var rest := Bytes(p, false)[4..];
    assert rest == U16ToBe(identifier) + U16ToBe(sequence);
    WordSumAppend(U16ToBe(identifier), U16ToBe(sequence));
    OneWordSum(identifier);
    OneWordSum(sequence);
    CoveredSplit(p);
  }

  /** Echo requests that a receiver following RFC 1071 accepts and the code refuses, between any two addresses. */
  lemma AllOnesEchoRefused(identifier: U16, sequence: U16, source: Ipv6Addr, dest: Ipv6Addr)
    requires (WordSum(source) + WordSum(dest) + 58 + 8 + 0x8000 + identifier + sequence) % 0xFFFF == 0
    ensures var p := Packet(128, 0, 0xFFFF, EchoRequest(identifier, sequence, []));
            && WellFormed(p) && |Bytes(p, true)| == 8
            && RfcAccepts(PseudoHeader(source, dest, 8) + Bytes(p, true))
            && !Verifies(p, source, dest)
  {
    var p := Packet(128, 0, 0xFFFF, EchoRequest(identifier, sequence, []));
    EmptyEchoSum(identifier, sequence, 0xFFFF, source, dest);
    WordSumAtMost(source);
    WordSumAtMost(dest);
    AllOnesRefused(p, source, dest);
  }

  lemma ReceivedTotal(p: Packet, source: Ipv6Addr, dest: Ipv6Addr)
    requires |Bytes(p, true)| < TWO_POW_32
    ensures CoveredSum(p, source, dest) + p.checksum
         == WordSum(source) + WordSum(dest) + 58 + WordSum(Bytes(p, true)) + |Bytes(p, true)|
  {
    StoredWord(p);
  }

  lemma ReceivedSum(p: Packet, source: Ipv6Addr, dest: Ipv6Addr)
    requires |Bytes(p, true)| < TWO_POW_32
    ensures RfcSum(PseudoHeader(source, dest, |Bytes(p, true)|) + Bytes(p, true))
         == Norm(CoveredSum(p, source, dest) + p.checksum)
  {
    var bytes := Bytes(p, true);
    var rest := WordSum(source) + WordSum(dest) + 58 + WordSum(bytes);
    ReceivedTotal(p, source, dest);
    PseudoHeaderSum(source, dest, |bytes|, bytes);
    ReferenceSum(PseudoHeader(source, dest, |bytes|) + bytes, rest, |bytes|);
  }

  lemma StoredWord(p: Packet)
    ensures WordAt(Bytes(p, true), 1) == p.checksum
    ensures WordSum(Bytes(p, true)) == WordSum(Bytes(p, false)) + p.checksum
  {
    var with, without := Bytes(p, true), Bytes(p, false);
    assert with == without[..2] + U16ToBe(p.checksum) + without[4..];
    U16RoundTrip(p.checksum);
    assert with[2] == U16ToBe(p.checksum)[0] && with[3] == U16ToBe(p.checksum)[1];
    assert without[2] == without[2..4][0] && without[3] == without[2..4][1];
    WordSumReplace(with, without, 1);
  }

  /** Filling changes only the checksum field, and the result verifies for the same two addresses. */
  lemma FilledVerifies(p: Packet, source: Ipv6Addr, dest: Ipv6Addr)
    ensures Verifies(Filled(p, source, dest), source, dest)
    ensures Bytes(Filled(p, source, dest), false) == Bytes(p, false)
    ensures WellFormed(p) ==> Parse(Bytes(Filled(p, source, dest), true)) == Ok(Filled(p, source, dest))
  {
    assert Bytes(Filled(p, source, dest), false) == Bytes(p, false);
    PrintThenParse(Filled(p, source, dest));
  }

  // ---------------------------------------------------------------- error detection

  lemma CoveredHasWord(p: Packet, k: nat)
    requires k != 1 && 2 * k < |Bytes(p, true)|
    ensures WordSum(Bytes(p, false)) >= WordAt(Bytes(p, true), k)
  {
    var with, without := Bytes(p, true), Bytes(p, false);
    assert with == without[..2] + U16ToBe(p.checksum) + without[4..];
    WordSumReplace(without, without, k);
  }

  /** How replacing word k of the message moves its covered words and the stored checksum of what is received. */
  lemma AlteredSums(p: Packet, altered: seq<Byte>, k: nat)
    requires DifferOnlyInWord(Bytes(p, true), altered, k) && Parse(altered).Ok?
    ensures var got := Parse(altered).value;
            && |Bytes(got, false)| == |Bytes(p, false)|
            && (k == 1 ==>
                  WordSum(Bytes(got, false)) == WordSum(Bytes(p, false)) && got.checksum == WordAt(altered, 1))
            && (k != 1 ==>
                  && WordSum(Bytes(p, false)) >= WordAt(Bytes(p, true), k)
                  && WordSum(Bytes(got, false))
                  == WordSum(Bytes(p, false)) - WordAt(Bytes(p, true), k) + WordAt(altered, k)
                  && got.checksum == p.checksum)
  {
    ParseThenPrint(altered);
    var got := Parse(altered).value;
    StoredWord(p);
    StoredWord(got);
    WordSumReplace(Bytes(p, true), altered, k);
    if k != 1 {
      CoveredHasWord(p, k);
      assert WordAt(Bytes(p, true), 1) == WordAt(altered, 1);
    }
  }

  /** The same for everything the checksum covers. */
  lemma AlteredCovers(p: Packet, source: Ipv6Addr, dest: Ipv6Addr, altered: seq<Byte>, k: nat)
    requires DifferOnlyInWord(Bytes(p, true), altered, k) && Parse(altered).Ok?
    ensures var got := Parse(altered).value;
            if k == 1 then
              PacketChecksum(got, source, dest) == PacketChecksum(p, source, dest) && got.checksum == WordAt(altered, 1)
            else
              && CoveredSum(p, source, dest) >= WordAt(Bytes(p, true), k) + 58
              && CoveredSum(got, source, dest)
              == CoveredSum(p, source, dest) - WordAt(Bytes(p, true), k) + WordAt(altered, k)
              && got.checksum == p.checksum
  {
    AlteredSums(p, altered, k);
  }

  /** Below the overflow bound two words are confused when one is 0 and the other 0xFFFF: 58 is always in the sum. */
  lemma ConfusedBelowBound(p: Packet, source: Ipv6Addr, dest: Ipv6Addr, altered: seq<Byte>, k: nat)
    requires DifferOnlyInWord(Bytes(Filled(p, source, dest), true), altered, k) && Parse(altered).Ok?
    requires k != 1 && |altered| <= 131_039
    ensures var w, w' := WordAt(Bytes(Filled(p, source, dest), true), k), WordAt(altered, k);
            CoveredSum(p, source, dest) > w && (Confusable(CoveredSum(p, source, dest) - w, w, w') <==> ZeroPair(w, w'))
  {
    var filled := Filled(p, source, dest);
    assert CoveredSum(filled, source, dest) == CoveredSum(p, source, dest) by { FilledVerifies(p, source, dest); }
    AlteredSums(filled, altered, k);
    AlteredCovers(filled, source, dest, altered, k);
    CoveredSumBound(p, source, dest);
    CoveredSumBound(Parse(altered).value, source, dest);
    var w := WordAt(Bytes(filled, true), k);
    ConfusableBelow(CoveredSum(p, source, dest) - w, w, WordAt(altered, k));
  }

  /** When two packets get the same checksum although one covered word differs. */
  lemma SameChecksum(p: Packet, got: Packet, source: Ipv6Addr, dest: Ipv6Addr, w: U16, w': U16)
    requires CoveredSum(p, source, dest) >= w
    requires CoveredSum(got, source, dest) == CoveredSum(p, source, dest) - w + w'
    ensures PacketChecksum(got, source, dest) == PacketChecksum(p, source, dest)
       <==> w == w' || Confusable(CoveredSum(p, source, dest) - w, w, w')
  {
    UnnoticedWord(CoveredSum(p, source, dest) - w, w, w');
  }

  lemma FilledHasWord(p: Packet, source: Ipv6Addr, dest: Ipv6Addr, k: nat)
    requires 2 * k < |Bytes(Filled(p, source, dest), true)|
    ensures k != 1 ==> CoveredSum(p, source, dest) >= WordAt(Bytes(Filled(p, source, dest), true), k)
  {
    FilledVerifies(p, source, dest);
    if k != 1 {
      CoveredHasWord(Filled(p, source, dest), k);
    }
  }

  lemma WordChangeJudged(p: Packet, source: Ipv6Addr, dest: Ipv6Addr, altered: seq<Byte>, k: nat)
    requires DifferOnlyInWord(Bytes(Filled(p, source, dest), true), altered, k) && Parse(altered).Ok?
    ensures var w, w' := WordAt(Bytes(Filled(p, source, dest), true), k), WordAt(altered, k);
            && (k != 1 ==> CoveredSum(p, source, dest) >= w)
            && (Verifies(Parse(altered).value, source, dest)
                <==> w == w' || (k != 1 && Confusable(CoveredSum(p, source, dest) - w, w, w')))
  {
    var filled, got := Filled(p, source, dest), Parse(altered).value;
    assert CoveredSum(filled, source, dest) == CoveredSum(p, source, dest)
        && PacketChecksum(filled, source, dest) == filled.checksum by { FilledVerifies(p, source, dest); }
    AlteredCovers(filled, source, dest, altered, k);
    if k == 1 {
      assert WordAt(Bytes(filled, true), 1) == filled.checksum by { StoredWord(filled); }
    } else {
      SameChecksum(filled, got, source, dest, WordAt(Bytes(filled, true), k), WordAt(altered, k));
    }
  }

  /**
    Replace any one aligned word of a filled message, the one with the type byte included.
    The receiver rejects an unknown type. Otherwise it still accepts exactly when nothing
    changed, or when the word is not the checksum and went between 0x0000 and 0xFFFF clear
    of a wrap; below the overflow bound every such exchange goes unnoticed, since 58 is
    always in the sum.
   */
  lemma WordChangeDetected(p: Packet, source: Ipv6Addr, dest: Ipv6Addr, altered: seq<Byte>, k: nat)
    requires DifferOnlyInWord(Bytes(Filled(p, source, dest), true), altered, k)
    ensures k != 1 ==> CoveredSum(p, source, dest) >= WordAt(Bytes(Filled(p, source, dest), true), k)
    ensures Parse(altered).Ok? <==> KnownType(altered[0])
    ensures var sent := Bytes(Filled(p, source, dest), true);
            var w, w' := WordAt(sent, k), WordAt(altered, k);
            Parse(altered).Ok? ==>
              && (Verifies(Parse(altered).value, source, dest)
                  <==> altered == sent || (k != 1 && Confusable(CoveredSum(p, source, dest) - w, w, w')))
              && (k != 1 && |altered| <= 131_039 ==>
                    (Confusable(CoveredSum(p, source, dest) - w, w, w') <==> ZeroPair(w, w')))
  {
    FilledHasWord(p, source, dest, k);
    assert Parse(altered).Ok? <==> KnownType(altered[0]) by { ParseThenPrint(altered); }
    SameWordsSame(Bytes(Filled(p, source, dest), true), altered, k);
    if Parse(altered).Ok? {
      WordChangeJudged(p, source, dest, altered, k);
      if k != 1 && |altered| <= 131_039 {
        ConfusedBelowBound(p, source, dest, altered, k);
      }
    }
  }

  /** Every change confined to one byte, whichever it is and at any length, is rejected by the parser or caught. */
  lemma ByteChangeDetected(p: Packet, source: Ipv6Addr, dest: Ipv6Addr, i: nat, value: Byte)
    requires i < |Bytes(p, true)| && Bytes(Filled(p, source, dest), true)[i] != value
    ensures var altered := Bytes(Filled(p, source, dest), true)[i := value];
            && (Parse(altered).Ok? <==> KnownType(altered[0]))
            && (Parse(altered).Ok? ==> !Verifies(Parse(altered).value, source, dest))
  {
    var sent := Bytes(Filled(p, source, dest), true);
    var altered := sent[i := value];
    WordChangeDetected(p, source, dest, altered, i / 2);
    OneByteIsNoZeroPair(sent, altered, i);
  }

  /** The same for a packet checked against a source address one word off; the sum treats both addresses alike. */
  lemma AddressChangeDetected(p: Packet, source: Ipv6Addr, dest: Ipv6Addr, altered: Ipv6Addr, k: nat)
    requires DifferOnlyInWord(source, altered, k)
    ensures CoveredSum(p, source, dest) >= WordAt(source, k)
    ensures var w, w' := WordAt(source, k), WordAt(altered, k);
            && (Verifies(Filled(p, source, dest), altered, dest)
                <==> altered == source || Confusable(CoveredSum(p, source, dest) - w, w, w'))
            && (|Bytes(p, false)| <= 131_039 ==>
                  (Confusable(CoveredSum(p, source, dest) - w, w, w') <==> ZeroPair(w, w')))
  {
    assert Bytes(Filled(p, source, dest), false) == Bytes(p, false);
    WordSumReplace(source, altered, k);
    SameWordsSame(source, altered, k);
    var others := CoveredSum(p, source, dest) - WordAt(source, k);
    UnnoticedWord(others, WordAt(source, k), WordAt(altered, k));
    if |Bytes(p, false)| <= 131_039 {
      CoveredSumBound(p, source, dest);
      CoveredSumBound(p, altered, dest);
      ConfusableBelow(others, WordAt(source, k), WordAt(altered, k));
    }
  }

  /** The checksum does not tell source from destination, so the previous result covers both. */
  lemma AddressesCommute(p: Packet, source: Ipv6Addr, dest: Ipv6Addr)
    ensures PacketChecksum(p, source, dest) == PacketChecksum(p, dest, source)
    ensures Verifies(p, source, dest) == Verifies(p, dest, source)
  {
  }
}
