/** rawudp.c and test_packet.c: the Internet checksum (RFC 1071), folded twice at the end. */
module Checksum {
  import opened Words

  type Word16 = x: int | 0 <= x < 0x1_0000

  const INT_MAX := 0x7FFF_FFFF
  const ULONG_RANGE := 0x1_0000_0000_0000_0000

  function Sum(ws: seq<Word16>): nat {
    if ws == [] then 0 else Sum(ws[..|ws| - 1]) + ws[|ws| - 1]
  }

  // ---------------------------------------------------------------- what RFC 1071 asks for

  /** Addition in 16 bits with end-around carry. */
  function OcAdd(a: Word16, b: Word16): Word16 {
    if a + b >= 0x1_0000 then a + b - 0xffff else a + b
  }

  /** The one's complement sum of the words. */
  function OcSum(ws: seq<Word16>): Word16 {
    if ws == [] then 0 else OcAdd(OcSum(ws[..|ws| - 1]), ws[|ws| - 1])
  }

  function Complement(w: Word16): Word16 { 0xffff - w }

  // ---------------------------------------------------------------- what the programs do

  /** Adds the high part of the sum to its low 16 bits, twice, and complements what is left. */
  function FoldTwice(sum: nat): Word16 {
    var s := Shr(sum, 16) + And(sum, 0xffff);
    var t := s + Shr(s, 16);
    Complement(And(t, 0xffff))
  }

  /** csum of rawudp.c. nwords is an int, so the unsigned long accumulator of 64 bits never
      wraps; one of 32 bits does not for up to 65537 words (NoWrap32). */
  method Csum(buf: seq<Word16>) returns (r: Word16)
    requires |buf| <= INT_MAX
    ensures r == FoldTwice(Sum(buf))
  {
    hide FoldTwice;
    var sum: nat := 0;
    var i := 0;
    while i < |buf|
      invariant 0 <= i <= |buf| && sum == Sum(buf[..i])
    {
      assert buf[..i + 1][..i] == buf[..i];
      SumBound(buf[..i + 1]);
      assert sum + buf[i] < ULONG_RANGE;
      sum := sum + buf[i];
      i := i + 1;
    }
    assert buf[..i] == buf;
    r := FoldTwice(sum);
  }

  // ---------------------------------------------------------------- why two folds are enough

  /** The number from 1 to 0xffff that leaves the same remainder modulo 0xffff; 0 only for 0. */
  function Reduce(s: nat): Word16 {
    if s == 0 then 0 else (s - 1) % 0xffff + 1
  }

  lemma FoldIs(sum: nat)
    ensures var s := sum / 0x1_0000 + sum % 0x1_0000;
            FoldTwice(sum) == 0xffff - (s + s / 0x1_0000) % 0x1_0000
  {
    hide Shr, And;
    Halfword(sum);
    var s := sum / 0x1_0000 + sum % 0x1_0000;
    Halfword(s);
    Halfword(s + s / 0x1_0000);
  }

  lemma Halfword(a: nat)
    ensures Shr(a, 16) == a / 0x1_0000 && And(a, 0xffff) == a % 0x1_0000
  {
    Pow2Of32();
    ShrIsQuotient(a, 16);
    AndLowMask(a, 16);
    LowIsRemainder(a, 16);
  }

  lemma ReduceUnique(s: nat, r: nat, q: int)
    requires 0 < r <= 0xffff && s == q * 0xffff + r && s > 0
    ensures Reduce(s) == r
  {
  }

  lemma ReduceAdd(s: nat, w: Word16)
    ensures Reduce(s + w) == OcAdd(Reduce(s), w)
  {
    if s > 0 {
      var q := (s - 1) / 0xffff;
      if Reduce(s) + w >= 0x1_0000 {
        ReduceUnique(s + w, Reduce(s) + w - 0xffff, q + 1);
      } else {
        ReduceUnique(s + w, Reduce(s) + w, q);
      }
    }
  }

  /** End-around-carry addition yields the representative of the plain sum. */
  lemma {:induction false} OcSumIs(ws: seq<Word16>)
    ensures OcSum(ws) == Reduce(Sum(ws))
  {
    if ws != [] {
      OcSumIs(ws[..|ws| - 1]);
      ReduceAdd(Sum(ws[..|ws| - 1]), ws[|ws| - 1]);
    }
  }

  /** Two folds reduce every sum of up to 65538 words. */
  lemma FoldReduces(sum: nat)
    requires sum <= 65538 * 0xffff
    ensures FoldTwice(sum) == Complement(Reduce(sum))
  {
    hide FoldTwice, Reduce;
    FoldIs(sum);
    var hi, lo := sum / 0x1_0000, sum % 0x1_0000;
    var s := hi + lo;
    assert sum == hi * 0xffff + s;
    if sum == 0 {
      ReduceZero();
    } else if s < 0x1_0000 {
      ReduceUnique(sum, s, hi);
    } else {
      ReduceUnique(sum, s - 0xffff, hi + 1);
    }
  }

  lemma ReduceZero()
    ensures Reduce(0) == 0
  {
  }

  lemma {:induction false} SumBound(ws: seq<Word16>)
    ensures Sum(ws) <= |ws| * 0xffff
  {
    if ws != [] { SumBound(ws[..|ws| - 1]); }
  }

  /** For up to 65538 words, csum is the complement of the one's complement sum. */
  lemma CsumCorrect(ws: seq<Word16>)
    requires |ws| <= 65538
    ensures FoldTwice(Sum(ws)) == Complement(OcSum(ws))
  {
    hide FoldTwice;
    SumBound(ws);
    FoldReduces(Sum(ws));
    OcSumIs(ws);
  }

  function Repeat(w: Word16, n: nat): (ws: seq<Word16>)
    ensures |ws| == n
  {
    if n == 0 then [] else Repeat(w, n - 1) + [w]
  }

  lemma {:induction false} SumRepeat(w: Word16, n: nat)
    ensures Sum(Repeat(w, n)) == n * w
  {
    if n > 0 {
      var r := Repeat(w, n);
      assert r[..|r| - 1] == Repeat(w, n - 1);
      SumRepeat(w, n - 1);
      assert n * w == (n - 1) * w + w;
    }
  }

  lemma {:induction false} SumJoin(a: seq<Word16>, b: seq<Word16>)
    ensures Sum(a + b) == Sum(a) + Sum(b)
    decreases |b|
  {
    if b == [] {
      assert a + b == a;
    } else {
      var n := |b| - 1;
      assert (a + b)[..|a + b| - 1] == a + b[..n];
      SumJoin(a, b[..n]);
    }
  }

  /** ... and with more words it need not be: 65538 words of all ones, a 1, and zeros. */
  lemma CsumTooLong(n: nat) returns (ws: seq<Word16>)
    requires n > 65538
    ensures |ws| == n && FoldTwice(Sum(ws)) != Complement(OcSum(ws))
  {
    hide Sum, Repeat, FoldTwice, OcSum;
    var ones := Repeat(0xffff, 65538);
    var rest := Repeat(1, 1) + Repeat(0, n - 65539);
    ws := ones + rest;
    SumRepeat(0xffff, 65538);
    SumRepeat(1, 1);
    SumRepeat(0, n - 65539);
    SumJoin(Repeat(1, 1), Repeat(0, n - 65539));
    SumJoin(ones, rest);
    FirstFailure();
    OcSumIs(ws);
  }

  /** The least sum that two folds do not reduce. */
  lemma FirstFailure()
    ensures FoldTwice(65538 * 0xffff + 1) != Complement(Reduce(65538 * 0xffff + 1))
  {
    hide FoldTwice;
    FoldIs(65538 * 0xffff + 1);
  }

  /** The exact limit: the fold is right for every buffer of n words if and only if n is at
      most 65538. */
  lemma CsumLimit(n: nat)
    ensures n <= 65538 <==>
            forall ws: seq<Word16> | |ws| == n :: FoldTwice(Sum(ws)) == Complement(OcSum(ws))
  {
    hide FoldTwice, Sum, OcSum;
    if n <= 65538 {
      forall ws: seq<Word16> | |ws| == n ensures FoldTwice(Sum(ws)) == Complement(OcSum(ws)) {
        CsumCorrect(ws);
      }
    } else {
      var ws := CsumTooLong(n);
    }
  }

  /** Up to 65537 words the sum also fits an unsigned long of 32 bits. */
  lemma NoWrap32(ws: seq<Word16>)
    requires |ws| <= 65537
    ensures Sum(ws) < TWO32
  {
    SumBound(ws);
  }

  // ---------------------------------------------------------------- verification by the receiver

  lemma {:induction false} SumUpdate(ws: seq<Word16>, k: nat, x: Word16)
    requires k < |ws|
    ensures Sum(ws[k := x]) == Sum(ws) - ws[k] + x
    decreases |ws|
  {
    var n := |ws| - 1;
    if k == n {
      assert ws[k := x][..n] == ws[..n];
    } else {
      assert ws[k := x][..n] == ws[..n][k := x];
      SumUpdate(ws[..n], k, x);
    }
  }

  lemma AllOnesIff(s: nat, x: Word16)
    ensures var c := Complement(Reduce(s));
            Reduce(s + x) == 0xffff <==> x == c || (c == 0 && x == 0xffff)
  {
    if s > 0 {
      var q := (s - 1) / 0xffff;
      var t := Reduce(s) + x;
      if t == 0xffff { ReduceUnique(s + x, t, q); }
      else if t == 2 * 0xffff { ReduceUnique(s + x, 0xffff, q + 1); }
      else if t < 0xffff { ReduceUnique(s + x, t, q); }
      else { ReduceUnique(s + x, t - 0xffff, q + 1); }
    }
  }

  /** With the checksum word zeroed for the computation, the sum over the finished buffer comes
      out as 0 exactly when the computed checksum is stored there, or its other one's complement
      representation of zero. */
  lemma VerifiesIff(ws: seq<Word16>, k: nat, x: Word16)
    requires |ws| <= 65538 && k < |ws| && ws[k] == 0
    ensures var c := FoldTwice(Sum(ws));
            FoldTwice(Sum(ws[k := x])) == 0 <==> x == c || (c == 0 && x == 0xffff)
  {
    hide FoldTwice, Reduce, Sum;
    SumBound(ws);
    FoldReduces(Sum(ws));
    SumBound(ws[k := x]);
    FoldReduces(Sum(ws[k := x]));
    SumUpdate(ws, k, x);
    AllOnesIff(Sum(ws), x);
  }

  /** A verified buffer in which one word is changed still verifies exactly when the word is
      the other representation of zero, given that another word is not 0. */
  lemma ChangedWordIff(ws: seq<Word16>, k: nat, x: Word16)
    requires |ws| <= 65538 && k < |ws| && FoldTwice(Sum(ws)) == 0 && Sum(ws) > ws[k]
    ensures FoldTwice(Sum(ws[k := x])) == 0
            <==> x == ws[k] || (ws[k] == 0 && x == 0xffff) || (ws[k] == 0xffff && x == 0)
  {
    hide FoldTwice, Sum;
    SumBound(ws);
    FoldReduces(Sum(ws));
    SumBound(ws[k := x]);
    FoldReduces(Sum(ws[k := x]));
    SumUpdate(ws, k, x);
  }

  // ---------------------------------------------------------------- independence of byte order

  function Swap(w: Word16): Word16 {
    w % 0x100 * 0x100 + w / 0x100
  }

  function SwapAll(ws: seq<Word16>): (r: seq<Word16>)
    ensures |r| == |ws| && forall i | 0 <= i < |ws| :: r[i] == Swap(ws[i])
  {
    seq(|ws|, i requires 0 <= i < |ws| => Swap(ws[i]))
  }

  lemma SwapTimes(w: Word16)
    ensures Swap(w) == 0x100 * w - 0xffff * (w / 0x100)
    ensures (Swap(w) == 0 <==> w == 0) && (Swap(w) == 0xffff <==> w == 0xffff)
  {
  }

  /** Numbers from 1 to 0xffff that differ by a multiple of 0xffff are the same. */
  lemma SameResidue(a: int, b: int, q: int)
    requires 0 < a <= 0xffff && 0 < b <= 0xffff && a - b == 0xffff * q
    ensures a == b
  {
  }

  lemma SwapAdd(a: Word16, b: Word16)
    ensures OcAdd(Swap(a), Swap(b)) == Swap(OcAdd(a, b))
  {
    hide Swap, OcAdd;
    SwapTimes(a);
    SwapTimes(b);
    SwapTimes(OcAdd(a, b));
    var k := OcCarry(a, b);
    var k' := OcCarry(Swap(a), Swap(b));
    if a != 0 || b != 0 {
      SameResidue(OcAdd(Swap(a), Swap(b)), Swap(OcAdd(a, b)),
                  -k' - a / 0x100 - b / 0x100 + 0x100 * k + OcAdd(a, b) / 0x100);
    }
  }

  lemma OcCarry(a: Word16, b: Word16) returns (k: int)
    ensures OcAdd(a, b) == a + b - 0xffff * k
    ensures OcAdd(a, b) == 0 <==> a == 0 && b == 0
  {
    k := if a + b >= 0x1_0000 then 1 else 0;
  }

  lemma {:induction false} SwapSum(ws: seq<Word16>)
    ensures OcSum(SwapAll(ws)) == Swap(OcSum(ws))
  {
    if ws != [] {
      hide Swap, OcAdd;
      var n := |ws| - 1;
      assert SwapAll(ws)[..n] == SwapAll(ws[..n]);
      SwapSum(ws[..n]);
      SwapAdd(OcSum(ws[..n]), ws[n]);
    } else {
      assert SwapAll(ws) == [];
    }
  }

  /** Swapping the bytes of every word swaps the bytes of the checksum. */
  lemma SwapLaw(ws: seq<Word16>)
    requires |ws| <= 65538
    ensures FoldTwice(Sum(SwapAll(ws))) == Swap(FoldTwice(Sum(ws)))
  {
    hide FoldTwice, Sum, OcSum;
    CsumCorrect(ws);
    CsumCorrect(SwapAll(ws));
    SwapSum(ws);
  }
}
