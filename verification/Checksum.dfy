/**
  The Internet checksum: the word-summing and carry-folding loops of src/packet.rs,
  and the 16-bit end-around-carry definition of section 1 of RFC 1071 they must meet.

  The source sums in a u32. A checked build panics when that sum overflows, an
  unchecked build wraps. Methods here return the wrapped value together with a flag
  that is true exactly when a checked build would have panicked.
 */
module Checksum {
  import opened Prelude

  // ---------------------------------------------------------------- specification

  /** The unbounded sum of the big-endian words of bs; an odd tail byte is the high half of a word. */
  function WordSum(bs: seq<Byte>): nat {
    if |bs| == 0 then 0
    else if |bs| == 1 then Word(bs[0], 0)
    else Word(bs[0], bs[1]) + WordSum(bs[2..])
  }

  /** Word k of bs, with an odd tail byte padded on the right. */
  function WordAt(bs: seq<Byte>, k: nat): U16
    requires 2 * k < |bs|
  {
    Word(bs[2 * k], if 2 * k + 1 < |bs| then bs[2 * k + 1] else 0)
  }

  /** One's-complement addition of 16-bit words: the carry goes round to the low end. */
  function OnesAdd(a: U16, b: U16): U16 {
    var s := a + b;
    if s >= 0x1_0000 then s - 0x1_0000 + 1 else s
  }

  /** The one's-complement sum of section 1 of RFC 1071. */
  function RfcSum(bs: seq<Byte>): U16 {
    if |bs| == 0 then 0
    else if |bs| == 1 then Word(bs[0], 0)
    else OnesAdd(Word(bs[0], bs[1]), RfcSum(bs[2..]))
  }

  /** The checksum a sender stores, computed over bytes whose checksum field is zero. */
  function RfcChecksum(bs: seq<Byte>): U16 {
    0xFFFF - RfcSum(bs)
  }

  /** The receiver's test: the sum over all bytes, stored checksum included, is all ones. */
  predicate RfcAccepts(bs: seq<Byte>) {
    RfcSum(bs) == 0xFFFF
  }

  /** The representative of total modulo 65535 that one's-complement addition yields: 0 only for 0. */
  function Norm(total: nat): U16 {
    if total == 0 then 0 else 1 + (total - 1) % 0xFFFF
  }

  /** What both checksum routines return for an unbounded word total. */
  function FoldedComplement(total: nat): U16 {
    0xFFFF - Norm(total % TWO_POW_32)
  }

  // ---------------------------------------------------------------- the code

  /** `a += b` on u32 values, with whether a checked build would have panicked. */
  function AddU32(a: U32, b: U32): (r: (U32, bool))
    ensures a + b == r.0 + if r.1 then TWO_POW_32 else 0
  {
    if a + b >= TWO_POW_32 then (a + b - TWO_POW_32, true) else (a + b, false)
  }

  lemma WrapsTo(total: nat, carries: nat, sum: U32)
    requires total == carries * TWO_POW_32 + sum
    ensures sum == total % TWO_POW_32
    ensures carries > 0 <==> total >= TWO_POW_32
  {
  }

  method SumBigEndianWords(bs: seq<Byte>) returns (sum: U32, wrapped: bool)
    ensures sum == WordSum(bs) % TWO_POW_32
    ensures wrapped <==> WordSum(bs) >= TWO_POW_32
  {
    if |bs| == 0 {
      return 0, false;
    }
    var len := |bs|;
    var data := bs;
    sum, wrapped := 0, false;
    ghost var carries: nat := 0;
    while |data| >= 2
      invariant |data| % 2 == len % 2
      invariant carries * TWO_POW_32 + sum + WordSum(data) == WordSum(bs)
      invariant wrapped <==> carries > 0
    {
      var (next, over) := AddU32(sum, U16FromBe(data[0..2]));
      carries := carries + if over then 1 else 0;
      sum, wrapped := next, wrapped || over;
      data := data[2..];
    }
    if len % 2 != 0 {
      var (next, over) := AddU32(sum, Word(data[0], 0));
      carries := carries + if over then 1 else 0;
      sum, wrapped := next, wrapped || over;
    }
    WrapsTo(WordSum(bs), carries, sum);
  }

  /** One pass of the carry loop: `(sum >> 16) + (sum & 0xFFFF)`. */
  function CarryStep(sum: nat): nat {
    sum / 0x1_0000 + sum % 0x1_0000
  }

  /** The carry loop and the closing `!sum as u16`, which end both checksum routines. */
  method FoldAndComplement(start: U32) returns (checksum: U16)
    ensures checksum == 0xFFFF - Norm(start)
  {
    var sum: U32 := start;
    while sum / 0x1_0000 != 0
      invariant Norm(sum) == Norm(start)
      decreases sum
    {
      CarryStepKeepsNorm(sum);
      sum := sum / 0x1_0000 + sum % 0x1_0000;
    }
    checksum := (0xFFFF_FFFF - sum) % 0x1_0000;
  }

  // ---------------------------------------------------------------- the representative modulo 65535

  lemma NormQuotient(total: nat) returns (q: nat)
    requires total > 0
    ensures total == 0xFFFF * q + Norm(total) && 1 <= Norm(total)
  {
    q := (total - 1) / 0xFFFF;
  }

  lemma NormUnique(total: nat, q: int, n: int)
    requires 0 < total == 0xFFFF * q + n && 1 <= n <= 0xFFFF
    ensures Norm(total) == n
  {
    var q' := NormQuotient(total);
    assert 0xFFFF * (q - q') == Norm(total) - n;
  }

  /** Norm does not see multiples of 65535, except that it tells 0 from the rest. */
  lemma NormShift(total: nat, k: int)
    requires total > 0 && total + 0xFFFF * k > 0
    ensures Norm(total + 0xFFFF * k) == Norm(total)
  {
    var q := NormQuotient(total);
    NormUnique(total + 0xFFFF * k, q + k, Norm(total));
  }

  /** Adding one word to a total is one end-around-carry addition. */
  lemma NormPlus(total: nat, w: U16)
    ensures Norm(total + w) == OnesAdd(Norm(total), w)
  {
    if total == 0 {
      if w > 0 {
        NormUnique(w, 0, w);
      }
    } else {
      var q := NormQuotient(total);
      if Norm(total) + w <= 0xFFFF {
        NormUnique(total + w, q, Norm(total) + w);
      } else {
        NormUnique(total + w, q + 1, Norm(total) + w - 0xFFFF);
      }
    }
  }

  // ---------------------------------------------------------------- the carry loop

  lemma CarryStepKeepsNorm(sum: nat)
    ensures Norm(CarryStep(sum)) == Norm(sum)
    ensures sum >= 0x1_0000 ==> CarryStep(sum) < sum
  {
    assert sum == CarryStep(sum) + 0xFFFF * (sum / 0x1_0000);
    if sum > 0 {
      NormShift(CarryStep(sum), sum / 0x1_0000);
    }
  }

  lemma NormSmall(sum: U16)
    ensures Norm(sum) == sum
  {
    NormPlus(0, sum);
  }

  /** The loop runs at most twice on any u32, and ends in the closed form. */
  lemma CarryLoopClosedForm(sum: U32)
    ensures CarryStep(CarryStep(sum)) < 0x1_0000
    ensures sum < 0x1_0000 ==> Norm(sum) == sum
    ensures CarryStep(sum) < 0x1_0000 ==> Norm(sum) == CarryStep(sum)
    ensures Norm(sum) == CarryStep(CarryStep(sum))
  {
    var once := CarryStep(sum);
    CarryStepKeepsNorm(sum);
    CarryStepKeepsNorm(once);
    NormSmall(CarryStep(once));
    if once < 0x1_0000 {
      NormSmall(once);
    }
    if sum < 0x1_0000 {
      NormSmall(sum);
    }
  }

  // ---------------------------------------------------------------- word sums

  lemma {:induction false} WordSumAppend(a: seq<Byte>, b: seq<Byte>)
    requires |a| % 2 == 0
    ensures WordSum(a + b) == WordSum(a) + WordSum(b)
  {
    if |a| == 0 {
      assert a + b == b;
    } else {
      assert (a + b)[2..] == a[2..] + b;
      WordSumAppend(a[2..], b);
    }
  }

  lemma OneWordSum(w: U16)
    ensures WordSum(U16ToBe(w)) == w
  {
    U16RoundTrip(w);
    assert WordSum(U16ToBe(w)[2..]) == 0;
  }

  lemma {:induction false} WordSumZero(bs: seq<Byte>)
    ensures WordSum(bs) == 0 <==> forall i :: 0 <= i < |bs| ==> bs[i] == 0
  {
    if |bs| >= 2 {
      WordSumZero(bs[2..]);
      assert forall i :: 2 <= i < |bs| ==> bs[i] == bs[2..][i - 2];
    }
  }

  /** Two byte strings that differ in one aligned word differ in their sums by exactly that word. */
  lemma {:induction false} WordSumReplace(a: seq<Byte>, b: seq<Byte>, k: nat)
    requires |a| == |b| && 2 * k < |a|
    requires forall i :: 0 <= i < |a| && i != 2 * k && i != 2 * k + 1 ==> a[i] == b[i]
    ensures WordSum(a) >= WordAt(a, k)
    ensures WordSum(a) - WordAt(a, k) == WordSum(b) - WordAt(b, k)
  {
    if k == 0 {
      if |a| >= 2 {
        assert a[2..] == b[2..];
      }
    } else {
      WordSumReplace(a[2..], b[2..], k - 1);
    }
  }

  function WordSumBound(len: nat): nat {
    0xFFFF * (len / 2) + if len % 2 == 0 then 0 else 0xFF00
  }

  lemma {:induction false} WordSumAtMost(bs: seq<Byte>)
    ensures WordSum(bs) <= WordSumBound(|bs|)
    ensures (forall i :: 0 <= i < |bs| ==> bs[i] == 0xFF) ==> WordSum(bs) == WordSumBound(|bs|)
  {
    if |bs| >= 2 {
      WordSumAtMost(bs[2..]);
    }
  }

  /** 131,074 bytes never overflow the u32 accumulator; 131,075 bytes of 0xFF do. */
  lemma OverflowBoundIsTight(bs: seq<Byte>)
    ensures |bs| <= 131_074 ==> WordSum(bs) < TWO_POW_32
    ensures |bs| >= 131_075 && (forall i :: 0 <= i < |bs| ==> bs[i] == 0xFF) ==> WordSum(bs) >= TWO_POW_32
  {
    WordSumAtMost(bs);
  }

  // ---------------------------------------------------------------- against RFC 1071

  /** Summing in a wide accumulator and folding once gives the one's-complement sum. */
  lemma {:induction false} RfcSumIsNorm(bs: seq<Byte>)
    ensures RfcSum(bs) == Norm(WordSum(bs))
  {
    if |bs| == 1 {
      NormSmall(Word(bs[0], 0));
    } else if |bs| >= 2 {
      RfcSumIsNorm(bs[2..]);
      NormPlus(WordSum(bs[2..]), Word(bs[0], bs[1]));
    }
  }

  /** The worked example of section 3 of RFC 1071. */
  lemma RfcExample()
    ensures RfcSum([0x00, 0x01, 0xF2, 0x03, 0xF4, 0xF5, 0xF6, 0xF7]) == 0xDDF2
  {
    var bs: seq<Byte> := [0x00, 0x01, 0xF2, 0x03, 0xF4, 0xF5, 0xF6, 0xF7];
    assert RfcSum(bs[6..]) == 0xF6F7;
    assert bs[4..][2..] == bs[6..] && RfcSum(bs[4..]) == 0xEBED;
    assert bs[2..][2..] == bs[4..] && RfcSum(bs[2..]) == 0xDDF1;
  }

  /** Exactly the totals whose 32-bit wrap leaves the folded value right. */
  predicate WrapHarmless(total: nat) {
    total < TWO_POW_32 || (total / TWO_POW_32 % 0xFFFF == 0 && total % TWO_POW_32 != 0)
  }

  lemma ShiftUnseen(r: nat, q: nat)
    requires r > 0
    ensures Norm(r + q) == Norm(r) <==> q % 0xFFFF == 0
  {
    if q % 0xFFFF == 0 {
      NormShift(r, q / 0xFFFF);
    }
    if Norm(r + q) == Norm(r) {
      var a := NormQuotient(r + q);
      var b := NormQuotient(r);
      Multiple(q, a - b);
    }
  }

  lemma Multiple(q: int, k: int)
    requires q == 0xFFFF * k
    ensures q % 0xFFFF == 0
  {
  }

  lemma FoldedComplementExact(total: nat)
    ensures FoldedComplement(total) == 0xFFFF - Norm(total) <==> WrapHarmless(total)
  {
    var q, r := total / TWO_POW_32, total % TWO_POW_32;
    if r == 0 {
      if total > 0 {
        var k := NormQuotient(total);
      }
    } else {
      assert total == r + q + 0xFFFF * (0x1_0001 * q);
      NormShift(r + q, 0x1_0001 * q);
      ShiftUnseen(r, q);
    }
  }

  lemma WrapHarmlessBelow(total: nat)
    requires total < 0xFFFF * TWO_POW_32
    ensures WrapHarmless(total) <==> total < TWO_POW_32
  {
    var q := total / TWO_POW_32;
    assert q < 0xFFFF;
    assert q % 0xFFFF == q;
  }

  /** Two positive totals fold alike exactly when they agree modulo 65535. */
  lemma NormAlike(a: nat, b: nat)
    requires a > 0 && b > 0
    ensures Norm(a) == Norm(b) <==> (a - b) % 0xFFFF == 0
  {
    if (a - b) % 0xFFFF == 0 {
      NormShift(b, (a - b) / 0xFFFF);
    }
    if Norm(a) == Norm(b) {
      var q: int := NormQuotient(a);
      var r: int := NormQuotient(b);
      Multiple(a - b, q - r);
    }
  }

  /** The all-ones sum is that of the positive multiples of 65535. */
  lemma NormAllOnes(total: nat)
    ensures Norm(total) == 0xFFFF <==> total > 0 && total % 0xFFFF == 0
  {
    if total > 0 {
      NormSmall(0xFFFF);
      NormAlike(total, 0xFFFF);
    }
  }

  /** The receiver's test split into the stored word and the rest. */
  lemma StoredWordTest(rest: nat, stored: U16)
    ensures stored == 0xFFFF - Norm(rest)
       <==> Norm(rest + stored) == 0xFFFF && (stored == 0xFFFF ==> rest == 0)
  {
    NormPlus(rest, stored);
    if rest > 0 {
      var q := NormQuotient(rest);
    }
  }

  /** Two totals below the wrap give the same checksum exactly when they agree modulo 65535, and 0 only with 0. */
  lemma FoldAlike(a: nat, b: nat)
    requires 0 < a < TWO_POW_32 && b < TWO_POW_32
    ensures FoldedComplement(a) == FoldedComplement(b) <==> b > 0 && (a - b) % 0xFFFF == 0
  {
    FoldBelow(a);
    FoldBelow(b);
    if b > 0 {
      NormAlike(a, b);
    }
  }

  lemma FoldBelow(total: nat)
    requires total < TWO_POW_32
    ensures FoldedComplement(total) == 0xFFFF - Norm(total)
    ensures Norm(total) == 0 <==> total == 0
  {
  }

  /** A stored word judged by the sum it was computed over, and by that sum with more words after it. */
  lemma TestWithTail(sum: nat, stored: U16, tail: nat)
    requires tail > 0 ==> sum > 0
    ensures stored == 0xFFFF - Norm(sum) ==> (Norm(sum + stored + tail) == 0xFFFF <==> tail % 0xFFFF == 0)
    ensures Norm(sum + stored + tail) == 0xFFFF ==>
              (stored == 0xFFFF - Norm(sum) <==> tail % 0xFFFF == 0 && (stored == 0xFFFF ==> sum == 0))
  {
    StoredWordTest(sum, stored);
    NormAllOnes(sum + stored);
    NormAllOnes(sum + stored + tail);
    TailNeutral(sum + stored, tail);
  }

  lemma TailNeutral(total: nat, tail: nat)
    ensures total % 0xFFFF == 0 ==> ((total + tail) % 0xFFFF == 0 <==> tail % 0xFFFF == 0)
    ensures (total + tail) % 0xFFFF == 0 ==> (total % 0xFFFF == 0 <==> tail % 0xFFFF == 0)
  {
  }

  /** The two encodings of zero in one's complement. */
  predicate ZeroPair(w: U16, w': U16) {
    (w == 0 && w' == 0xFFFF) || (w == 0xFFFF && w' == 0)
  }

  /** Two words are told apart by the folded sum unless one is 0, the other 0xFFFF, and something else is non-zero. */
  lemma WordsConfused(rest: nat, w: U16, w': U16)
    ensures Norm(rest + w) == Norm(rest + w') <==> w == w' || (rest > 0 && ZeroPair(w, w'))
  {
    NormPlus(rest, w);
    NormPlus(rest, w');
    if rest > 0 {
      var q := NormQuotient(rest);
    }
  }

  /** The same, seen through the 32-bit wrap: both totals must also lie in the same lap, past its start. */
  predicate Confusable(rest: nat, w: U16, w': U16) {
    ZeroPair(w, w') && 0 < rest % TWO_POW_32 < TWO_POW_32 - 0xFFFF
  }

  lemma NextLap(rest: nat, w: U16)
    ensures (rest + w) % TWO_POW_32
         == if rest % TWO_POW_32 + w < TWO_POW_32 then rest % TWO_POW_32 + w else rest % TWO_POW_32 + w - TWO_POW_32
  {
  }

  lemma NormNearLapEnd(total: nat)
    requires TWO_POW_32 - 0xFFFF <= total < TWO_POW_32
    ensures Norm(total) == total - 0xFFFF * 0x1_0000
  {
    NormUnique(total, 0x1_0000, total - 0xFFFF * 0x1_0000);
  }

  lemma LapsApart(r: nat, w: U16, w': U16)
    requires r < TWO_POW_32 && r + w < TWO_POW_32 <= r + w'
    ensures Norm(r + w) != Norm(r + w' - TWO_POW_32)
  {
    NormNearLapEnd(r + w);
    NormSmall(r + w' - TWO_POW_32);
  }

  lemma SecondLap(r: nat, w: U16, w': U16)
    requires r < TWO_POW_32 && TWO_POW_32 <= r + w && TWO_POW_32 <= r + w'
    ensures Norm(r + w - TWO_POW_32) == Norm(r + w' - TWO_POW_32) <==> w == w'
  {
    NormSmall(r + w - TWO_POW_32);
    NormSmall(r + w' - TWO_POW_32);
  }

  /** Exactly which replacements of one word the computed checksum does not see, at every length. */
  lemma UnnoticedWord(rest: nat, w: U16, w': U16)
    ensures FoldedComplement(rest + w) == FoldedComplement(rest + w') <==> w == w' || Confusable(rest, w, w')
  {
    var r := rest % TWO_POW_32;
    NextLap(rest, w);
    NextLap(rest, w');
    if r + w < TWO_POW_32 && r + w' < TWO_POW_32 {
      WordsConfused(r, w, w');
    } else if r + w < TWO_POW_32 {
      LapsApart(r, w, w');
    } else if r + w' < TWO_POW_32 {
      LapsApart(r, w', w);
    } else {
      SecondLap(r, w, w');
    }
  }

  /** Without overflow the laps do not matter. */
  lemma ConfusableBelow(rest: nat, w: U16, w': U16)
    requires rest + w < TWO_POW_32 && rest + w' < TWO_POW_32
    ensures Confusable(rest, w, w') <==> ZeroPair(w, w') && rest > 0
  {
  }

  // ---------------------------------------------------------------- changes confined to a word or a byte

  predicate DifferOnlyInWord(a: seq<Byte>, b: seq<Byte>, k: nat) {
    && |a| == |b| && 2 * k < |a|
    && forall i :: 0 <= i < |a| && i != 2 * k && i != 2 * k + 1 ==> a[i] == b[i]
  }

  lemma SameWordsSame(a: seq<Byte>, b: seq<Byte>, k: nat)
    requires DifferOnlyInWord(a, b, k)
    ensures a == b <==> WordAt(a, k) == WordAt(b, k)
  {
    if WordAt(a, k) == WordAt(b, k) {
      assert a[2 * k] == b[2 * k];
      assert forall i :: 0 <= i < |a| ==> a[i] == b[i];
    }
  }

  lemma ZeroPairDiffersTwice(high: Byte, low: Byte, high': Byte, low': Byte)
    requires ZeroPair(Word(high, low), Word(high', low'))
    ensures high != high' && low != low'
  {
  }

  lemma OneByteIsNoZeroPair(a: seq<Byte>, b: seq<Byte>, i: nat)
    requires |a| == |b| && i < |a|
    requires forall j :: 0 <= j < |a| && j != i ==> a[j] == b[j]
    ensures !ZeroPair(WordAt(a, i / 2), WordAt(b, i / 2))
  {
    var k := i / 2;
    var low, low' := if 2 * k + 1 < |a| then a[2 * k + 1] else 0, if 2 * k + 1 < |b| then b[2 * k + 1] else 0;
    assert a[2 * k] == b[2 * k] || low == low';
    if ZeroPair(WordAt(a, k), WordAt(b, k)) {
      ZeroPairDiffersTwice(a[2 * k], low, b[2 * k], low');
    }
  }

  /** With all-ones stored, the receiver's test passes exactly on multiples of 65535. */
  lemma AllOnesStored(rest: nat)
    requires rest > 0
    ensures Norm(rest + 0xFFFF) == 0xFFFF <==> rest % 0xFFFF == 0
  {
    NormAllOnes(rest + 0xFFFF);
  }
}
