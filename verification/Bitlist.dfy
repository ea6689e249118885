/** bitlist.c: bit lists with a search cursor, printed and parsed as "1-3,5,7". */
module Bitlist {

  const BITS_PER_ELEM := 32
  const BITLIST_INVALID := -1

  // ---------------------------------------------------------------- words

  /** BIT_TO_MASK of a bit within its word */
  function Mask(i: nat): bv32
    requires i < 32
  {
    (1 as bv32) << i
  }

  predicate Bit(w: bv32, i: nat)
    requires i < 32
  {
    w & Mask(i) != 0
  }

  function WithBit(w: bv32, b: nat): bv32
    requires b < 32
  {
    w | Mask(b)
  }

  function WithoutBit(w: bv32, b: nat): bv32
    requires b < 32
  {
    w & !Mask(b)
  }

  lemma OtherBitKept(w: bv32, b: nat, i: nat)
    requires b < 32 && i < 32 && b != i
    ensures Bit(WithBit(w, b), i) <==> Bit(w, i)
  {
    hide Mask;
    MasksApart(b, i);
  }

  lemma OtherBitKeptClear(w: bv32, b: nat, i: nat)
    requires b < 32 && i < 32 && b != i
    ensures Bit(WithoutBit(w, b), i) <==> Bit(w, i)
  {
    hide Mask;
    MasksApart(b, i);
  }

  lemma BitSet(w: bv32, b: nat)
    requires b < 32
    ensures Bit(WithBit(w, b), b)
  {
    hide Mask;
    MaskNonzero(b);
    MaskSet(w, Mask(b));
  }

  lemma BitCleared(w: bv32, b: nat)
    requires b < 32
    ensures !Bit(WithoutBit(w, b), b)
  {
    hide Mask;
    MaskCleared(w, Mask(b));
  }

  lemma MaskNonzero(b: nat)
    requires b < 32
    ensures Mask(b) != 0
  {
  }

  lemma MaskSet(w: bv32, m: bv32)
    requires m != 0
    ensures (w | m) & m != 0
  {
  }

  lemma MaskCleared(w: bv32, m: bv32)
    ensures (w & !m) & m == 0
  {
  }

  lemma MasksApart(b: nat, i: nat)
    requires b < 32 && i < 32 && b != i
    ensures Mask(b) & Mask(i) == 0
  {
  }

  lemma WithBitIs(w: bv32, b: nat, i: nat)
    requires b < 32 && i < 32
    ensures Bit(WithBit(w, b), i) <==> Bit(w, i) || i == b
    ensures Bit(WithoutBit(w, b), i) <==> Bit(w, i) && i != b
  {
    hide Bit, WithBit, WithoutBit;
    if i == b {
      BitSet(w, b);
      BitCleared(w, b);
    } else {
      OtherBitKept(w, b, i);
      OtherBitKeptClear(w, b, i);
    }
  }

  lemma ZeroHasNoBit(i: nat)
    requires i < 32
    ensures !Bit(0, i)
  {
  }

  /** Bit p of the words, counted through all of them. */
  predicate RawSet(words: seq<bv32>, p: nat)
    requires p < 32 * |words|
  {
    Bit(words[p / 32], p % 32)
  }

  /** The least position from `from` on whose bit is set, or the number of positions. */
  function NextSet(words: seq<bv32>, from: nat): (p: nat)
    ensures p < 32 * |words| ==> from <= p && RawSet(words, p)
    ensures forall q | from <= q < p && q < 32 * |words| :: !RawSet(words, q)
    ensures p <= 32 * |words|
    decreases 32 * |words| - from
  {
    if from >= 32 * |words| then 32 * |words|
    else if RawSet(words, from) then from
    else NextSet(words, from + 1)
  }

  lemma NextSetIs(words: seq<bv32>, from: nat, p: nat)
    requires from <= p <= 32 * |words|
    requires p < 32 * |words| ==> RawSet(words, p)
    requires forall q | from <= q < p :: !RawSet(words, q)
    ensures NextSet(words, from) == p
  {
    hide RawSet;
    var n := NextSet(words, from);
    assert !(n < p);
    assert !(p < n);
  }

  // ---------------------------------------------------------------- members

  /** Bits maxBits and above of the last word do not count. */
  ghost predicate IsMember(words: seq<bv32>, base: nat, maxBits: nat, x: int)
    requires maxBits <= 32 * |words|
  {
    base <= x < base + maxBits && RawSet(words, x - base)
  }

  ghost function Members(words: seq<bv32>, base: nat, maxBits: nat): set<int>
    requires maxBits <= 32 * |words|
  {
    set x: int | base <= x < base + maxBits && IsMember(words, base, maxBits, x)
  }

  class List {
    var bits: array<bv32>
    var maxElems: nat
    var maxBits: nat
    var baseBit: nat
    var lastElem: nat
    var lastBit: nat

    ghost predicate Valid()
      reads this, bits
    {
      bits.Length == maxElems == (maxBits + 31) / 32 && lastBit < 32
    }

    ghost function Set(): set<int>
      requires Valid()
      reads this, bits
    {
      Members(bits[..], baseBit, maxBits)
    }

    /** Where the next bitlist_find_bit(FALSE) starts to look. */
    ghost function Resume(): nat
      requires Valid()
      reads this, bits
    {
      if lastElem >= maxElems then 32 * maxElems else 32 * lastElem + lastBit + 1
    }

    /** bitlist_alloc, with its bitlist_clearall. */
    constructor (numBits: nat, base: nat)
      ensures Valid() && fresh(bits) && Set() == {}
      ensures maxBits == numBits && baseBit == base && lastElem == lastBit == 0
    {
      maxElems := (numBits + 31) / 32;
      maxBits, baseBit, lastElem, lastBit := numBits, base, 0, 0;
      bits := new bv32[(numBits + 31) / 32](_ => 0);
      new;
      NoMembers(bits[..], base, numBits);
    }

    predicate ValidBit(bit: int)
      reads this
    {
      0 <= bit < maxBits
    }

    method Test(bit: int) returns (r: bool)
      requires Valid()
      ensures r <==> bit in Set()
    {
      var b := bit - baseBit;
      if !ValidBit(b) {
        return false;
      }
      r := Bit(bits[b / 32], b % 32);
    }

    method SetBit(bit: int)
      requires Valid()
      modifies bits
      ensures Valid()
      ensures Set() == old(Set()) + if ValidBit(bit - baseBit) then {bit} else {}
    {
      hide Members, WithBit;
      var b := bit - baseBit;
      if ValidBit(b) {
        MembersWith(bits[..], baseBit, maxBits, b);
        bits[b / 32] := WithBit(bits[b / 32], b % 32);
      }
    }

    method Clear(bit: int)
      requires Valid()
      modifies bits
      ensures Valid()
      ensures Set() == old(Set()) - {bit}
    {
      hide Members, WithoutBit;
      var b := bit - baseBit;
      if ValidBit(b) {
        MembersWithout(bits[..], baseBit, maxBits, b);
        bits[b / 32] := WithoutBit(bits[b / 32], b % 32);
      } else {
        NotMember(bits[..], baseBit, maxBits, bit);
      }
    }

    /** Finds the least member at or after the place the cursor names, and leaves the cursor on
        it; with none left, or only bits beyond maxBits, leaves the cursor past the words. */
    method FindBit(first: bool) returns (r: int)
      requires Valid()
      modifies this`lastElem, this`lastBit
      ensures Valid()
      ensures var from := if first then 0 else old(Resume());
              var p := NextSet(bits[..], from);
              if p < maxBits then r == p + baseBit && Resume() == p + 1
              else r == BITLIST_INVALID && Resume() == 32 * maxElems && lastElem >= maxElems
    {
      hide Bit, NextSet;
      ghost var from := if first then 0 else Resume();
      var elem, bit := 0, 0;
      if !first {
        elem := lastElem;
        if elem >= maxElems {
          NextSetIs(bits[..], from, from);
          return BITLIST_INVALID;
        }
        bit := lastBit + 1;
      }
      label search: while elem < maxElems
        invariant 0 <= elem <= maxElems && 0 <= bit <= 32 && (elem == maxElems ==> bit == 0)
        invariant from <= 32 * elem + bit
        invariant forall q | from <= q < 32 * elem + bit && q < 32 * maxElems :: !RawSet(bits[..], q)
      {
        var word := bits[elem];
        if bit >= BITS_PER_ELEM {
        } else if word == 0 {
          forall q | 32 * elem <= q < 32 * elem + 32 ensures !RawSet(bits[..], q) {
            ZeroHasNoBit(q % 32);
          }
        } else {
          while bit < BITS_PER_ELEM
            invariant 0 <= bit <= 32 && from <= 32 * elem + bit
            invariant forall q | from <= q < 32 * elem + bit :: !RawSet(bits[..], q)
          {
            assert RawSet(bits[..], 32 * elem + bit) <==> Bit(word, bit);
            if Bit(word, bit) {
              break search;
            }
            bit := bit + 1;
          }
        }
        elem, bit := elem + 1, 0;
      }
      NextSetIs(bits[..], from, 32 * elem + bit);
      lastElem, lastBit := elem, bit;
      if elem >= maxElems {
        return BITLIST_INVALID;
      }
      bit := elem * BITS_PER_ELEM + bit;
      if bit >= maxBits {
        lastElem := maxElems;
        return BITLIST_INVALID;
      }
      return bit + baseBit;
    }

    method FindAfter(bit: int) returns (r: int)
      requires Valid()
      modifies this`lastElem, this`lastBit
      ensures Valid()
      ensures if 0 <= bit - baseBit < maxBits then
                var p := NextSet(bits[..], bit - baseBit + 1);
                r == if p < maxBits then p + baseBit else BITLIST_INVALID
              else r == BITLIST_INVALID && unchanged(this)
    {
      var b := bit - baseBit;
      if !ValidBit(b) {
        return BITLIST_INVALID;
      }
      lastElem := b / 32;
      lastBit := b % 32;
      r := FindBit(false);
    }
  }

  lemma NoMembers(words: seq<bv32>, base: nat, maxBits: nat)
    requires maxBits <= 32 * |words| && forall k | 0 <= k < |words| :: words[k] == 0
    ensures Members(words, base, maxBits) == {}
  {
    forall x: int ensures !IsMember(words, base, maxBits, x) {
      if base <= x < base + maxBits {
        ZeroHasNoBit((x - base) % 32);
      }
    }
  }

  lemma NotMember(words: seq<bv32>, base: nat, maxBits: nat, x: int)
    requires maxBits <= 32 * |words| && !(0 <= x - base < maxBits)
    ensures x !in Members(words, base, maxBits)
  {
  }

  lemma MembersWith(words: seq<bv32>, base: nat, maxBits: nat, b: nat)
    requires b < maxBits <= 32 * |words|
    ensures Members(words[b / 32 := WithBit(words[b / 32], b % 32)], base, maxBits)
            == Members(words, base, maxBits) + {base + b}
  {
    var words' := words[b / 32 := WithBit(words[b / 32], b % 32)];
    hide Bit, WithBit;
    forall x: int
      ensures IsMember(words', base, maxBits, x) <==> IsMember(words, base, maxBits, x) || x == base + b
    {
      if base <= x < base + maxBits {
        WithBitIs(words[b / 32], b % 32, (x - base) % 32);
      }
    }
  }

  lemma MembersWithout(words: seq<bv32>, base: nat, maxBits: nat, b: nat)
    requires b < maxBits <= 32 * |words|
    ensures Members(words[b / 32 := WithoutBit(words[b / 32], b % 32)], base, maxBits)
            == Members(words, base, maxBits) - {base + b}
  {
    var words' := words[b / 32 := WithoutBit(words[b / 32], b % 32)];
    hide Bit, WithoutBit;
    forall x: int
      ensures IsMember(words', base, maxBits, x) <==> IsMember(words, base, maxBits, x) && x != base + b
    {
      if base <= x < base + maxBits {
        WithBitIs(words[b / 32], b % 32, (x - base) % 32);
      }
    }
  }
}
