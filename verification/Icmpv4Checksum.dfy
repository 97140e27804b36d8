/** The ICMPv4 checksum: computing, filling and verifying it, and what verification catches. */
module Icmpv4Checksum {
  import opened Prelude
  import opened Checksum
  import opened Icmpv4

  /** The word total the checksum covers: the message with its checksum field zeroed. */
  function CoveredSum(p: Packet): nat {
    WordSum(Bytes(p, false))
  }

  function PacketChecksum(p: Packet): U16 {
    FoldedComplement(CoveredSum(p))
  }

  function Filled(p: Packet): Packet {
    p.(checksum := PacketChecksum(p))
  }

  predicate Verifies(p: Packet) {
    PacketChecksum(p) == p.checksum
  }

  method CalculateChecksum(p: Packet) returns (checksum: U16, wrapped: bool)
    ensures checksum == PacketChecksum(p)
    ensures wrapped <==> CoveredSum(p) >= TWO_POW_32
  {
    var sum: U32 := 0;
    var bytes := GetBytes(p, false);
    var words, over := SumBigEndianWords(bytes);
    var (next, over') := AddU32(sum, words);
    sum, wrapped := next, over || over';
    checksum := FoldAndComplement(sum);
  }

  method WithChecksum(p: Packet) returns (filled: Packet)
    ensures filled == Filled(p)
  {
    var checksum, wrapped := CalculateChecksum(p);
    filled := p.(checksum := checksum);
  }

  method VerifyChecksum(p: Packet) returns (ok: bool)
    ensures ok == Verifies(p)
  {
    var checksum, wrapped := CalculateChecksum(p);
    ok := checksum == p.checksum;
  }

  // ---------------------------------------------------------------- bounds and RFC 1071

  /** The whole message sums to the covered words plus the stored checksum. */
  lemma StoredAndCovered(p: Packet)
    ensures WordAt(Bytes(p, true), 1) == p.checksum
    ensures WordSum(Bytes(p, true)) == CoveredSum(p) + p.checksum
  {
    var with, without := Bytes(p, true), Bytes(p, false);
    assert with == without[..2] + U16ToBe(p.checksum) + without[4..];
    U16RoundTrip(p.checksum);
    assert with[2] == U16ToBe(p.checksum)[0] && with[3] == U16ToBe(p.checksum)[1];
    assert without[2] == without[2..4][0] && without[3] == without[2..4][1];
    WordSumReplace(with, without, 1);
  }

  lemma CoveredSplit(p: Packet)
    ensures CoveredSum(p) == Word(p.typ, p.code) + WordSum(Bytes(p, false)[4..])
  {
    var bytes := Bytes(p, false);
    assert bytes[2] == bytes[2..4][0] && bytes[3] == bytes[2..4][1];
    assert bytes[2..][2..] == bytes[4..];
    assert WordSum(bytes[2..]) == Word(bytes[2], bytes[3]) + WordSum(bytes[4..]);
  }

  /** The zeroed field buys one word: 131,076 bytes are always safe and 131,077 need not be. */
  lemma CoveredSumBoundIsTight(p: Packet)
    ensures |Bytes(p, false)| <= 131_076 ==> CoveredSum(p) < TWO_POW_32
    ensures |Bytes(p, false)| >= 131_077
         && (forall i :: 0 <= i < |Bytes(p, false)| && i != 2 && i != 3 ==> Bytes(p, false)[i] == 0xFF)
        ==> CoveredSum(p) >= TWO_POW_32
  {
    CoveredSplit(p);
    var bytes := Bytes(p, false);
    WordSumAtMost(bytes[4..]);
    if forall i :: 0 <= i < |bytes| && i != 2 && i != 3 ==> bytes[i] == 0xFF {
      assert forall i :: 0 <= i < |bytes[4..]| ==> bytes[4..][i] == bytes[i + 4] == 0xFF;
      assert p.typ == bytes[0] && p.code == bytes[1];
    }
  }

  /** Messages that overflow exist at every length from 131,077 bytes on. */
  lemma OnesMessageOverflows(payload: seq<Byte>, checksum: U16)
    requires |payload| >= 131_069 && forall i :: 0 <= i < |payload| ==> payload[i] == 0xFF
    ensures CoveredSum(Packet(0xFF, 0xFF, checksum, Echo(0xFFFF, 0xFFFF, payload))) >= TWO_POW_32
  {
    var p := Packet(0xFF, 0xFF, checksum, Echo(0xFFFF, 0xFFFF, payload));
    var bytes := Bytes(p, false);
    assert U16ToBe(0xFFFF) == [0xFF, 0xFF];
    assert bytes == bytes[..4] + bytes[4..8] + bytes[8..];
    assert forall i :: 4 <= i < 8 ==> bytes[i] == bytes[4..8][i - 4] == 0xFF;
    assert forall i :: 8 <= i < |bytes| ==> bytes[i] == bytes[8..][i - 8] == 0xFF;
    CoveredSumBoundIsTight(p);
  }

  /** The stored value is the RFC 1071 checksum exactly when the u32 wrap is harmless. */
  lemma ChecksumMeetsRfc1071(p: Packet)
    ensures PacketChecksum(p) == RfcChecksum(Bytes(p, false)) <==> WrapHarmless(CoveredSum(p))
    ensures |Bytes(p, false)| <= 131_076 ==> PacketChecksum(p) == RfcChecksum(Bytes(p, false))
  {
    RfcSumIsNorm(Bytes(p, false));
    FoldedComplementExact(CoveredSum(p));
    CoveredSumBoundIsTight(p);
  }

  // ---------------------------------------------------------------- verification

  lemma CoveredZero(p: Packet)
    ensures CoveredSum(p) == 0
       <==> forall i :: 0 <= i < |Bytes(p, true)| && i != 2 && i != 3 ==> Bytes(p, true)[i] == 0
  {
    var with, without := Bytes(p, true), Bytes(p, false);
    assert with == without[..2] + U16ToBe(p.checksum) + without[4..];
    WordSumZero(without);
    assert without[2] == without[2..4][0] && without[3] == without[2..4][1];
    assert forall i :: 0 <= i < |with| && i != 2 && i != 3 ==> with[i] == without[i];
    assert without[2] == 0 && without[3] == 0;
  }

  /** The receiver's test of RFC 1071, less the all-ones encoding of a non-empty sum. */
  predicate PassesReceiverTest(p: Packet) {
    && RfcAccepts(Bytes(p, true))
    && (p.checksum == 0xFFFF ==>
          forall i :: 0 <= i < |Bytes(p, true)| && i != 2 && i != 3 ==> Bytes(p, true)[i] == 0)
  }

  lemma TestMeansRfcChecksum(p: Packet)
    ensures PassesReceiverTest(p) <==> p.checksum == 0xFFFF - Norm(CoveredSum(p))
  {
    assert WordSum(Bytes(p, true)) == CoveredSum(p) + p.checksum by { StoredAndCovered(p); }
    StoredWordTest(CoveredSum(p), p.checksum);
    RfcSumIsNorm(Bytes(p, true));
    CoveredZero(p);
  }

  /** Verification is that test exactly when the u32 wrap is harmless; otherwise it accepts nothing the test does. */
  lemma VerifyMeansRfcTest(p: Packet)
    ensures WrapHarmless(CoveredSum(p)) ==> (Verifies(p) <==> PassesReceiverTest(p))
    ensures !WrapHarmless(CoveredSum(p)) ==> !(Verifies(p) && PassesReceiverTest(p))
    ensures |Bytes(p, true)| <= 131_076 ==> WrapHarmless(CoveredSum(p))
  {
    TestMeansRfcChecksum(p);
    FoldedComplementExact(CoveredSum(p));
    CoveredSumBoundIsTight(p);
  }

  /** Where the two differ: a stored 0xFFFF over a positive multiple of 65535 passes the RFC's test only. */
  lemma AllOnesRefused(p: Packet)
    requires p.checksum == 0xFFFF && CoveredSum(p) > 0 && WrapHarmless(CoveredSum(p))
    ensures !Verifies(p)
    ensures RfcAccepts(Bytes(p, true)) <==> CoveredSum(p) % 0xFFFF == 0
  {
    VerifyMeansRfcTest(p);
    CoveredZero(p);
    StoredAndCovered(p);
    RfcSumIsNorm(Bytes(p, true));
    AllOnesStored(CoveredSum(p));
  }

  lemma EmptyEchoSum(identifier: U16, sequence: U16, checksum: U16)
    ensures CoveredSum(Packet(8, 0, checksum, Echo(identifier, sequence, []))) == 0x800 + identifier + sequence
  {
    var p := Packet(8, 0, checksum, Echo(identifier, sequence, []));
    var rest := Bytes(p, false)[4..];
    assert rest == U16ToBe(identifier) + U16ToBe(sequence);
    WordSumAppend(U16ToBe(identifier), U16ToBe(sequence));
    OneWordSum(identifier);
    OneWordSum(sequence);
    CoveredSplit(p);
  }

  /** Echo requests that a receiver following RFC 1071 accepts and the code refuses. */
  lemma AllOnesEchoRefused(identifier: U16, sequence: U16)
    requires 0x800 + identifier + sequence == 0xFFFF
    ensures var p := Packet(8, 0, 0xFFFF, Echo(identifier, sequence, []));
            WellFormed(p) && RfcAccepts(Bytes(p, true)) && !Verifies(p)
  {
    EmptyEchoSum(identifier, sequence, 0xFFFF);
    AllOnesRefused(Packet(8, 0, 0xFFFF, Echo(identifier, sequence, [])));
  }

  /** Filling changes only the checksum field, and the result verifies whatever the length. */
  lemma FilledVerifies(p: Packet)
    ensures Verifies(Filled(p))
    ensures Bytes(Filled(p), false) == Bytes(p, false)
    ensures WellFormed(p) ==> ParseIcmp(Bytes(Filled(p), true)) == Ok(Filled(p))
  {
    assert Bytes(Filled(p), false) == Bytes(p, false);
    PrintThenParse(Filled(p));
  }

  // ---------------------------------------------------------------- error detection

  /** The words received are those of the packet they parse to and those of the tail parsing drops. */
  lemma ReceivedSum(bytes: seq<Byte>)
    requires ParseIcmp(bytes).Ok?
    ensures var got := ParseIcmp(bytes).value;
            && WordSum(bytes) == CoveredSum(got) + got.checksum + WordSum(Tail(bytes))
            && got.checksum == WordAt(bytes, 1)
            && |Bytes(got, false)| <= |bytes|
            && (Tail(bytes) == [] ==> WordSum(Tail(bytes)) == 0)
            && (Tail(bytes) != [] ==> |Bytes(got, false)| <= 20 && CoveredSum(got) > 0)
  {
    var got := ParseIcmp(bytes).value;
    ParseThenPrint(bytes);
    assert bytes == Kept(bytes) + Tail(bytes);
    if Tail(bytes) == [] {
      assert bytes == Kept(bytes);
    } else {
      WordSumAppend(Kept(bytes), Tail(bytes));
    }
    StoredAndCovered(got);
    assert WordAt(Kept(bytes), 1) == WordAt(bytes, 1);
    CoveredSplit(got);
  }

  /**
    What verification says about the bytes that arrived. Types 13 to 16 drop a tail, which
    the RFC's test sums and verification does not: where one accepts, the other does exactly
    if the tail's words are a multiple of 65535, the all-ones encoding aside.
   */
  lemma ReceivedMeansRfcTest(bytes: seq<Byte>)
    requires ParseIcmp(bytes).Ok?
    ensures var got := ParseIcmp(bytes).value;
            var harmless, neutral := WrapHarmless(CoveredSum(got)), WordSum(Tail(bytes)) % 0xFFFF == 0;
            && (harmless && Verifies(got) ==> (RfcAccepts(bytes) <==> neutral))
            && (harmless && RfcAccepts(bytes) ==>
                  (Verifies(got) <==> neutral && (got.checksum == 0xFFFF ==> CoveredSum(got) == 0)))
            && (Tail(bytes) != [] ==> harmless)
  {
    var got := ParseIcmp(bytes).value;
    ReceivedSum(bytes);
    RfcSumIsNorm(bytes);
    TestWithTail(CoveredSum(got), got.checksum, WordSum(Tail(bytes)));
    FoldedComplementExact(CoveredSum(got));
    CoveredSumBoundIsTight(got);
  }

  /** Any word other than the checksum is part of the covered sum. */
  lemma CoveredHasWord(p: Packet, k: nat)
    requires k != 1 && 2 * k < |Bytes(p, true)|
    ensures CoveredSum(p) >= WordAt(Bytes(p, true), k)
  {
    var with, without := Bytes(p, true), Bytes(p, false);
    assert with == without[..2] + U16ToBe(p.checksum) + without[4..];
    WordSumReplace(without, without, k);
  }

  /** How replacing word k moves the covered sum and the stored checksum of what is received. */
  lemma AlteredSums(p: Packet, altered: seq<Byte>, k: nat)
    requires DifferOnlyInWord(Bytes(p, true), altered, k) && ParseIcmp(altered).Ok?
    ensures var got := ParseIcmp(altered).value;
            if k == 1 then
              CoveredSum(got) + WordSum(Tail(altered)) == CoveredSum(p) && got.checksum == WordAt(altered, 1)
            else
              CoveredSum(p) >= WordAt(Bytes(p, true), k)
              && CoveredSum(got) + WordSum(Tail(altered))
              == CoveredSum(p) - WordAt(Bytes(p, true), k) + WordAt(altered, k)
              && got.checksum == p.checksum
  {
    ReceivedSum(altered);
    StoredAndCovered(p);
    WordSumReplace(Bytes(p, true), altered, k);
    if k != 1 {
      CoveredHasWord(p, k);
      assert WordAt(Bytes(p, true), 1) == WordAt(altered, 1);
    }
  }

  // ---------------------------------------------------------------- error detection

  /** The same for a filled packet. */
  lemma FilledAltered(p: Packet, altered: seq<Byte>, k: nat)
    requires DifferOnlyInWord(Bytes(Filled(p), true), altered, k) && ParseIcmp(altered).Ok?
    ensures var got, w, w' := ParseIcmp(altered).value, WordAt(Bytes(Filled(p), true), k), WordAt(altered, k);
            var dropped := WordSum(Tail(altered));
            && (k == 1 ==> CoveredSum(got) + dropped == CoveredSum(p) && got.checksum == w' && w == PacketChecksum(p))
            && (k != 1 ==>
                  && CoveredSum(p) >= w && CoveredSum(got) + dropped == CoveredSum(p) - w + w'
                  && got.checksum == PacketChecksum(p))
  {
    var filled := Filled(p);
    assert CoveredSum(filled) == CoveredSum(p) by { FilledVerifies(p); }
    AlteredSums(filled, altered, k);
    assert WordAt(Bytes(filled, true), 1) == filled.checksum by { StoredAndCovered(filled); }
  }

  /** What replacing a word w by w' and dropping words from a filled packet does to its verification. */
  lemma ChangeJudged(p: Packet, got: Packet, w: U16, w': U16, dropped: nat)
    requires CoveredSum(p) >= w && CoveredSum(got) + dropped == CoveredSum(p) - w + w'
    requires got.checksum == PacketChecksum(p)
    ensures Verifies(got) <==> FoldedComplement(CoveredSum(p) - w + w' - dropped) == FoldedComplement(CoveredSum(p))
    ensures dropped == 0 ==> (Verifies(got) <==> w == w' || Confusable(CoveredSum(p) - w, w, w'))
  {
    UnnoticedWord(CoveredSum(p) - w, w, w');
  }

  /** The same without a wrap. */
  lemma ChangeJudgedBelow(p: Packet, got: Packet, w: U16, w': U16, dropped: nat)
    requires CoveredSum(p) >= w && CoveredSum(got) + dropped == CoveredSum(p) - w + w'
    requires got.checksum == PacketChecksum(p)
    requires CoveredSum(p) < TWO_POW_32 && 0 < CoveredSum(got) < TWO_POW_32
    ensures Verifies(got) <==> CoveredSum(p) > 0 && (w' - w - dropped) % 0xFFFF == 0
  {
    assert CoveredSum(got) - CoveredSum(p) == w' - w - dropped;
    FoldAlike(CoveredSum(got), CoveredSum(p));
  }

  lemma SumsBelowBound(p: Packet, altered: seq<Byte>)
    requires |altered| == |Bytes(p, true)| <= 131_076 && ParseIcmp(altered).Ok?
    ensures CoveredSum(p) < TWO_POW_32 && CoveredSum(ParseIcmp(altered).value) < TWO_POW_32
  {
    ReceivedSum(altered);
    CoveredSumBoundIsTight(p);
    CoveredSumBoundIsTight(ParseIcmp(altered).value);
  }

  lemma CoveredChangeJudged(p: Packet, altered: seq<Byte>, k: nat)
    requires DifferOnlyInWord(Bytes(Filled(p), true), altered, k) && k != 1
    requires ParseIcmp(altered).Ok? && Tail(altered) == []
    ensures var w, w' := WordAt(Bytes(Filled(p), true), k), WordAt(altered, k);
            && CoveredSum(p) >= w
            && (Verifies(ParseIcmp(altered).value) <==> w == w' || Confusable(CoveredSum(p) - w, w, w'))
  {
    FilledAltered(p, altered, k);
    ChangeJudged(p, ParseIcmp(altered).value, WordAt(Bytes(Filled(p), true), k), WordAt(altered, k), 0);
  }

  lemma StoredChangeJudged(p: Packet, altered: seq<Byte>)
    requires DifferOnlyInWord(Bytes(Filled(p), true), altered, 1)
    requires ParseIcmp(altered).Ok? && Tail(altered) == []
    ensures Verifies(ParseIcmp(altered).value) <==> WordAt(Bytes(Filled(p), true), 1) == WordAt(altered, 1)
  {
    var got := ParseIcmp(altered).value;
    assert WordSum(Tail(altered)) == 0;
    FilledAltered(p, altered, 1);
    assert PacketChecksum(got) == PacketChecksum(p);
  }

  lemma ConfusedBelowBound(p: Packet, altered: seq<Byte>, k: nat)
    requires DifferOnlyInWord(Bytes(Filled(p), true), altered, k) && k != 1
    requires ParseIcmp(altered).Ok? && Tail(altered) == [] && |altered| <= 131_076
    ensures var w, w' := WordAt(Bytes(Filled(p), true), k), WordAt(altered, k);
            && CoveredSum(p) >= w
            && (Confusable(CoveredSum(p) - w, w, w') <==> ZeroPair(w, w') && CoveredSum(p) > w)
  {
    FilledAltered(p, altered, k);
    SumsBelowBound(p, altered);
    ConfusableBelow(CoveredSum(p) - WordAt(Bytes(Filled(p), true), k), WordAt(Bytes(Filled(p), true), k),
                    WordAt(altered, k));
  }

  /**
    Replace any one aligned word of a filled packet of any length, where parsing drops
    nothing. The receiver still accepts exactly when nothing changed, or when the word is
    not the checksum, it went between 0x0000 and 0xFFFF, and the sum of the other covered
    words stays clear of a wrap; below the overflow bound that means one of them is
    non-zero.
   */
  lemma WordChangeDetected(p: Packet, altered: seq<Byte>, k: nat)
    requires DifferOnlyInWord(Bytes(Filled(p), true), altered, k)
    requires ParseIcmp(altered).Ok? && Tail(altered) == []
    ensures var sent := Bytes(Filled(p), true);
            var w, w' := WordAt(sent, k), WordAt(altered, k);
            && (k != 1 ==> CoveredSum(p) >= w)
            && (Verifies(ParseIcmp(altered).value)
                <==> altered == sent || (k != 1 && Confusable(CoveredSum(p) - w, w, w')))
            && (k != 1 && |altered| <= 131_076 ==>
                  (Confusable(CoveredSum(p) - w, w, w') <==> ZeroPair(w, w') && CoveredSum(p) > w))
  {
    SameWordsSame(Bytes(Filled(p), true), altered, k);
    if k == 1 {
      StoredChangeJudged(p, altered);
    } else {
      CoveredChangeJudged(p, altered, k);
      if |altered| <= 131_076 {
        ConfusedBelowBound(p, altered, k);
      }
    }
  }

  /** A well-formed packet whose type byte is left alone parses without loss. */
  lemma SameTypeParses(p: Packet, altered: seq<Byte>)
    requires WellFormed(p) && |altered| == |Bytes(p, true)| && altered[0] == p.typ
    ensures ParseIcmp(altered).Ok? && Tail(altered) == []
  {
    ParseAccepts(altered);
  }

  /**
    A change confined to one byte is caught, at any length, wherever parsing drops nothing:
    always when a well-formed packet keeps its type. Single-bit flips are such changes.
   */
  lemma ByteChangeDetected(p: Packet, i: nat, value: Byte)
    requires i < |Bytes(p, true)| && Bytes(Filled(p), true)[i] != value
    ensures var altered := Bytes(Filled(p), true)[i := value];
            && (ParseIcmp(altered).Ok? && Tail(altered) == [] ==> !Verifies(ParseIcmp(altered).value))
            && (WellFormed(p) && i > 0 ==> ParseIcmp(altered).Ok? && Tail(altered) == [])
  {
    var sent := Bytes(Filled(p), true);
    var altered := sent[i := value];
    OneByteIsNoZeroPair(sent, altered, i);
    if ParseIcmp(altered).Ok? && Tail(altered) == [] {
      WordChangeDetected(p, altered, i / 2);
    }
    if WellFormed(p) && i > 0 {
      SameTypeParses(Filled(p), altered);
    }
  }

  /** Whatever parsing drops, a change goes unnoticed exactly when the folded sums agree without it. */
  lemma DroppedTailUnnoticed(p: Packet, altered: seq<Byte>, k: nat)
    requires DifferOnlyInWord(Bytes(Filled(p), true), altered, k) && k != 1
    requires ParseIcmp(altered).Ok?
    ensures var w, w', dropped := WordAt(Bytes(Filled(p), true), k), WordAt(altered, k), WordSum(Tail(altered));
            && CoveredSum(p) - w + w' >= dropped
            && (Verifies(ParseIcmp(altered).value)
                <==> FoldedComplement(CoveredSum(p) - w + w' - dropped) == FoldedComplement(CoveredSum(p)))
  {
    FilledAltered(p, altered, k);
    ChangeJudged(p, ParseIcmp(altered).value, WordAt(Bytes(Filled(p), true), k), WordAt(altered, k),
                 WordSum(Tail(altered)));
  }

  /** Below the overflow bound that is agreement modulo 65535. */
  lemma DroppedTailBelowBound(p: Packet, altered: seq<Byte>, k: nat)
    requires DifferOnlyInWord(Bytes(Filled(p), true), altered, k) && k != 1
    requires ParseIcmp(altered).Ok? && Tail(altered) != [] && |altered| <= 131_076
    ensures var w, w', dropped := WordAt(Bytes(Filled(p), true), k), WordAt(altered, k), WordSum(Tail(altered));
            Verifies(ParseIcmp(altered).value) <==> CoveredSum(p) > 0 && (w' - w - dropped) % 0xFFFF == 0
  {
    var got := ParseIcmp(altered).value;
    var w, w', dropped := WordAt(Bytes(Filled(p), true), k), WordAt(altered, k), WordSum(Tail(altered));
    FilledAltered(p, altered, k);
    assert CoveredSum(got) > 0 by { ReceivedSum(altered); }
    SumsBelowBound(p, altered);
    ChangeJudgedBelow(p, got, w, w', dropped);
  }

  lemma TypeStep(p: Packet, value: Byte)
    ensures var sent := Bytes(Filled(p), true);
            && DifferOnlyInWord(sent, sent[0 := value], 0)
            && WordAt(sent[0 := value], 0) - WordAt(sent, 0) == 0x100 * (value as int - p.typ as int)
  {
  }

  /** Another type byte that still parses: caught where the new type drops nothing, and exactly when elsewhere. */
  lemma TypeChangeUnnoticed(p: Packet, value: Byte)
    requires value != p.typ && ParseIcmp(Bytes(Filled(p), true)[0 := value]).Ok?
    ensures var altered := Bytes(Filled(p), true)[0 := value];
            var verifies, dropped := Verifies(ParseIcmp(altered).value), WordSum(Tail(altered));
            && (Tail(altered) == [] ==> !verifies)
            && (Tail(altered) != [] && |altered| <= 131_076 ==>
                  (verifies <==> CoveredSum(p) > 0 && (0x100 * (value as int - p.typ as int) - dropped) % 0xFFFF == 0))
  {
    var altered := Bytes(Filled(p), true)[0 := value];
    TypeStep(p, value);
    if Tail(altered) == [] {
      ByteChangeDetected(p, 0, value);
    } else if |altered| <= 131_076 {
      var step := WordAt(altered, 0) - WordAt(Bytes(Filled(p), true), 0);
      assert step == 0x100 * (value as int - p.typ as int);
      DroppedTailBelowBound(p, altered, 0);
    }
  }

  /** What a Redirect with a 14-byte body loses when its type becomes that of a Timestamp. */
  lemma RetypedTail(code: Byte, checksum: U16, gateway: U32, body: seq<Byte>)
    requires |body| == 14
    ensures var altered := Bytes(Packet(5, code, checksum, Redirect(gateway, body)), true)[0 := 13];
            && ParseIcmp(altered).Ok? && ParseIcmp(altered).value.message.Timestamp?
            && Tail(altered) == body[12..]
  {
    var altered := Bytes(Packet(5, code, checksum, Redirect(gateway, body)), true)[0 := 13];
    ParseAccepts(altered);
    assert altered[8..] == body;
    assert Tail(altered) == altered[8..][12..];
  }

  /**
    It does happen: a filled Redirect whose body is twelve bytes and the word 0x0800, with
    one bit of its type flipped, is a Timestamp that has lost that word and verifies.
   */
  lemma RedirectAsTimestampVerifies(code: Byte, gateway: U32, front: seq<Byte>)
    requires |front| == 12
    ensures var p := Packet(5, code, 0, Redirect(gateway, front + [8, 0]));
            var altered := Bytes(Filled(p), true)[0 := 13];
            && WellFormed(p)
            && ParseIcmp(altered).Ok? && ParseIcmp(altered).value.message.Timestamp?
            && Verifies(ParseIcmp(altered).value)
  {
    var body := front + [8, 0];
    var p := Packet(5, code, 0, Redirect(gateway, body));
    var altered := Bytes(Filled(p), true)[0 := 13];
    RetypedTail(code, PacketChecksum(p), gateway, body);
    var got := ParseIcmp(altered).value;
    assert WordSum(Tail(altered)) == 0x800 by {
      assert body[12..] == [8, 0];
      assert WordSum([8, 0]) == 0x800;
    }
    assert CoveredSum(got) == CoveredSum(p) && got.checksum == PacketChecksum(p) by {
      TypeStep(p, 13);
      FilledAltered(p, altered, 0);
    }
  }
}
