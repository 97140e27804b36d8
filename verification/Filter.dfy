/**
  The Linux receive filters. A set bit blocks its type: one u32 covers ICMPv4 types 0 to
  31 (higher types always pass), eight u32 words cover all ICMPv6 types.
 */
module Filter {
  import opened Prelude

  function Bit(n: bv8): bv32
    requires n < 32
  {
    1 << n
  }

  predicate Open(word: bv32, bit: bv8)
    requires bit < 32
  {
    word & Bit(bit) == 0
  }

  function Clear(word: bv32, bit: bv8): bv32
    requires bit < 32
  {
    word & !Bit(bit)
  }

  /** Whether the kernel passes a type under an ICMPv4 filter word. */
  predicate Passes4(mask: bv32, typ: bv8) {
    typ >= 32 || Open(mask, typ)
  }

  function WordIndex(typ: bv8): (i: nat)
    ensures i < 8
  {
    (typ / 32) as int
  }

  function BitIndex(typ: bv8): (bit: bv8)
    ensures bit < 32
  {
    typ % 32
  }

  /** Whether the kernel passes a type under the eight ICMPv6 filter words. */
  predicate Passes6(mask: seq<bv32>, typ: bv8)
    requires |mask| == 8
  {
    Open(mask[WordIndex(typ)], BitIndex(typ))
  }

  /** True of every type; names the filter that passes them all. */
  predicate IsType(typ: bv8) {
    true
  }

  ghost function AllTypes(): iset<bv8> {
    iset t: bv8 | IsType(t)
  }

  predicate Filterable4(allowed: seq<bv8>) {
    forall i :: 0 <= i < |allowed| ==> allowed[i] < 32
  }

  /** The mask left by clearing the bit of each listed type in turn. */
  function Cleared4(allowed: seq<bv8>): bv32
    requires Filterable4(allowed)
  {
    if allowed == [] then 0xFFFF_FFFF
    else Clear(Cleared4(allowed[..|allowed| - 1]), allowed[|allowed| - 1])
  }

  function Cleared6(allowed: seq<bv8>): (mask: seq<bv32>)
    ensures |mask| == 8
  {
    if allowed == [] then seq(8, _ => 0xFFFF_FFFF)
    else ClearType6(Cleared6(allowed[..|allowed| - 1]), allowed[|allowed| - 1])
  }

  function ClearType6(mask: seq<bv32>, typ: bv8): (mask': seq<bv32>)
    requires |mask| == 8
    ensures |mask'| == 8
  {
    mask[WordIndex(typ) := Clear(mask[WordIndex(typ)], BitIndex(typ))]
  }

  // ---------------------------------------------------------------- the mask loops

  /** The loop of `set_allowed_types_v4`; None is the InvalidInput error for a type above 31. */
  method AllowMask4(allowed: seq<bv8>) returns (mask: Option<bv32>)
    ensures mask.Some? <==> Filterable4(allowed)
    ensures mask.Some? ==> mask.value == Cleared4(allowed)
  {
    var word: bv32 := 0xFFFF_FFFF;
    for i := 0 to |allowed|
      invariant Filterable4(allowed[..i])
      invariant word == Cleared4(allowed[..i])
    {
      var typ := allowed[i];
      if typ >= 32 {
        return None;
      }
      assert allowed[..i + 1][..i] == allowed[..i];
      word := Clear(word, typ);
    }
    assert allowed[..|allowed|] == allowed;
    mask := Some(word);
  }

  /** The loop of `set_allowed_types_v6`, which updates the eight words in place. */
  method AllowMask6(allowed: seq<bv8>) returns (words: seq<bv32>)
    ensures words == Cleared6(allowed)
  {
    var mask := new bv32[8](_ => 0xFFFF_FFFF);
    for i := 0 to |allowed|
      invariant mask[..] == Cleared6(allowed[..i])
    {
      var typ := allowed[i];
      assert allowed[..i + 1][..i] == allowed[..i];
      mask[WordIndex(typ)] := Clear(mask[WordIndex(typ)], BitIndex(typ));
    }
    assert allowed[..|allowed|] == allowed;
    words := mask[..];
  }

  // ---------------------------------------------------------------- meaning

  lemma BitsDisjoint(a: bv8, b: bv8)
    requires a < 32 && b < 32 && a != b
    ensures Bit(a) & Bit(b) == 0
  {
  }

  lemma NoneOpen(bit: bv8)
    requires bit < 32
    ensures !Open(0xFFFF_FFFF, bit)
  {
  }

  lemma AllOpen(bit: bv8)
    requires bit < 32
    ensures Open(0, bit)
  {
  }

  lemma ClearOther(mask: bv32, bit: bv32, other: bv32)
    requires bit & other == 0
    ensures (mask & !bit) & other == mask & other
  {
  }

  lemma ClearSame(mask: bv32, bit: bv32)
    ensures (mask & !bit) & bit == 0
  {
  }

  lemma OpensItself(word: bv32, bit: bv8)
    requires bit < 32
    ensures Open(Clear(word, bit), bit)
  {
    ClearSame(word, Bit(bit));
  }

  lemma LeavesOthers(word: bv32, bit: bv8, other: bv8)
    requires bit < 32 && other < 32 && bit != other
    ensures Clear(word, bit) & Bit(other) == word & Bit(other)
  {
    BitsDisjoint(bit, other);
    ClearOther(word, Bit(bit), Bit(other));
  }

  lemma LeavesOthersOpen(word: bv32, bit: bv8, other: bv8)
    requires bit < 32 && other < 32 && bit != other
    ensures Open(Clear(word, bit), other) <==> Open(word, other)
  {
    LeavesOthers(word, bit, other);
  }

  /** Clearing a bit opens that type and no other. */
  lemma ClearOpens(word: bv32, bit: bv8, other: bv8)
    requires bit < 32 && other < 32
    ensures Open(Clear(word, bit), other) <==> other == bit || Open(word, other)
  {
    if other == bit {
      OpensItself(word, bit);
    } else {
      LeavesOthersOpen(word, bit, other);
    }
  }

  lemma InPrefixOrLast(allowed: seq<bv8>, typ: bv8)
    requires allowed != []
    ensures typ in allowed <==> typ in allowed[..|allowed| - 1] || typ == allowed[|allowed| - 1]
  {
    assert allowed == allowed[..|allowed| - 1] + [allowed[|allowed| - 1]];
  }

  lemma {:induction false} Cleared4Open(allowed: seq<bv8>, typ: bv8)
    requires Filterable4(allowed) && typ < 32
    ensures Open(Cleared4(allowed), typ) <==> typ in allowed
  {
    if allowed == [] {
      NoneOpen(typ);
    } else {
      var prefix, last := allowed[..|allowed| - 1], allowed[|allowed| - 1];
      Cleared4Open(prefix, typ);
      InPrefixOrLast(allowed, typ);
      ClearOpens(Cleared4(prefix), last, typ);
    }
  }

  /** An ICMPv4 allow-list passes exactly its members among types 0 to 31, and every higher type. */
  lemma Cleared4Passes(allowed: seq<bv8>, typ: bv8)
    requires Filterable4(allowed)
    ensures Passes4(Cleared4(allowed), typ) <==> typ >= 32 || typ in allowed
  {
    if typ < 32 {
      Cleared4Open(allowed, typ);
    }
  }

  lemma OpenIsZeroBit(word: bv32, bit: bv8)
    requires bit < 32
    ensures Open(word, bit) <==> (word >> bit) & 1 == 0
  {
  }

  /** In the kernel's terms: bit t of the word is 0 exactly for the listed types t. */
  lemma MaskBits4(allowed: seq<bv8>, typ: bv8)
    requires Filterable4(allowed) && typ < 32
    ensures (Cleared4(allowed) >> typ) & 1 == 0 <==> typ in allowed
  {
    Cleared4Open(allowed, typ);
    OpenIsZeroBit(Cleared4(allowed), typ);
  }

  lemma SameWordIndex(a: bv8, b: bv8)
    ensures WordIndex(a) == WordIndex(b) <==> a / 32 == b / 32
  {
  }

  lemma SplitType(a: bv8, b: bv8)
    ensures a == b <==> a / 32 == b / 32 && a % 32 == b % 32
  {
  }

  lemma TypePlace(a: bv8, b: bv8)
    ensures a == b <==> WordIndex(a) == WordIndex(b) && BitIndex(a) == BitIndex(b)
  {
    SameWordIndex(a, b);
    SplitType(a, b);
  }

  lemma ClearInWords(mask: seq<bv32>, word: nat, bit: bv8, word': nat, bit': bv8)
    requires |mask| == 8 && word < 8 && word' < 8 && bit < 32 && bit' < 32
    ensures Open(mask[word := Clear(mask[word], bit)][word'], bit')
       <==> (word' == word && bit' == bit) || Open(mask[word'], bit')
  {
    if word' == word {
      ClearOpens(mask[word], bit, bit');
    }
  }

  lemma ClearType6Passes(mask: seq<bv32>, typ: bv8, other: bv8)
    requires |mask| == 8
    ensures Passes6(ClearType6(mask, typ), other) <==> other == typ || Passes6(mask, other)
  {
    TypePlace(other, typ);
    ClearInWords(mask, WordIndex(typ), BitIndex(typ), WordIndex(other), BitIndex(other));
  }

  /** An ICMPv6 allow-list passes exactly its members, over all 256 types. */
  lemma {:induction false} Cleared6Passes(allowed: seq<bv8>, typ: bv8)
    ensures Passes6(Cleared6(allowed), typ) <==> typ in allowed
  {
    if allowed == [] {
      NoneOpen(BitIndex(typ));
    } else {
      var prefix, last := allowed[..|allowed| - 1], allowed[|allowed| - 1];
      Cleared6Passes(prefix, typ);
      InPrefixOrLast(allowed, typ);
      ClearType6Passes(Cleared6(prefix), last, typ);
    }
  }

  /** In the kernel's terms: bit t mod 32 of word t / 32 is 0 exactly for the listed types t. */
  lemma MaskBits6(allowed: seq<bv8>, typ: bv8)
    ensures (typ / 32) as int < 8 && typ % 32 < 32
    ensures (Cleared6(allowed)[(typ / 32) as int] >> (typ % 32)) & 1 == 0 <==> typ in allowed
  {
    Cleared6Passes(allowed, typ);
    OpenIsZeroBit(Cleared6(allowed)[WordIndex(typ)], BitIndex(typ));
  }
}
