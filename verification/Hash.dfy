/** hash.c: the folded hash and the size of the table. */
module Hash {
  import opened Words

  // ---------------------------------------------------------------- the hash

  function Sum(key: seq<Byte>): nat {
    if key == [] then 0 else Sum(key[..|key| - 1]) + key[|key| - 1]
  }

  /** The number from 1 to 255 that leaves the same remainder modulo 255; 0 only for 0. */
  function Reduce(n: nat): (r: nat)
    ensures r <= 255
  {
    if n == 0 then 0 else (n - 1) % 255 + 1
  }

  lemma FoldOnce(a: nat)
    requires a > 255
    ensures 0 < And(a, 255) + Shr(a, 8) < a
    ensures Reduce(And(a, 255) + Shr(a, 8)) == Reduce(a)
  {
    hide And, Shr, Reduce;
    assert Pow2(8) == 256;
    ShrIsQuotient(a, 8);
    AndLowMask(a, 8);
    LowIsRemainder(a, 8);
    var q, r := a / 256, a % 256;
    SameReduce(q + r, a, q);
  }

  lemma SameReduce(a: nat, b: nat, q: nat)
    requires 0 < a && b == a + 255 * q
    ensures Reduce(a) == Reduce(b)
  {
  }

  lemma ReduceAdd(a: nat, x: nat)
    ensures Reduce(Reduce(a) + x) == Reduce(a + x)
  {
    hide Reduce;
    var q := Quotient(a);
    if a == 0 { assert Reduce(0) == 0 by { ReduceZero(); } }
    else { SameReduce(Reduce(a) + x, a + x, q); }
  }

  lemma ReduceZero()
    ensures Reduce(0) == 0
  {
  }

  lemma Quotient(a: nat) returns (q: nat)
    ensures a > 0 ==> a == Reduce(a) + 255 * q && Reduce(a) > 0
  {
    q := if a == 0 then 0 else (a - 1) / 255;
  }

  lemma ReduceSmall(a: nat)
    requires a <= 255
    ensures Reduce(a) == a
  {
  }

  /** The size_t of the table passed as an int. */
  function ToInt(size: nat): int { Signed(Wrap(size)) }

  /** The remainder of ints, which takes the sign of a: 0 or more here. */
  function Rem(a: nat, b: int): nat
    requires b != 0
  {
    if b > 0 then a % b else a % -b
  }

  /** hash(): the sum of the bytes with the carries added back in, modulo the table size, which
      it takes as an int. It divides by zero for sizes that narrow to 0 (HashDefinedIff). */
  method HashKey(key: seq<Byte>, keyLen: nat, size: int) returns (h: nat)
    requires keyLen <= |key| && size != 0
    ensures h == Rem(Reduce(Sum(key[..keyLen])), size)
  {
    hide Reduce, And, Shr, Rem;
    var accum: nat, s, i := 0, 0, keyLen;
    ReduceZero();
    while i > 0
      invariant s + i == keyLen && accum == Reduce(Sum(key[..s]))
      decreases i
    {
      i := i - 1;
      assert key[..s + 1][..s] == key[..s];
      ReduceAdd(Sum(key[..s]), key[s]);
      accum, s := accum + key[s], s + 1;
      while accum > 255
        invariant Reduce(accum) == Reduce(Sum(key[..s]))
        decreases accum
      {
        FoldOnce(accum);
        accum := And(accum, 255) + Shr(accum, 8);
      }
      ReduceSmall(accum);
    }
    h := Rem(accum, size);
  }

  lemma {:induction false} SumRemove(key: seq<Byte>, i: nat)
    requires i < |key|
    ensures Sum(key) == Sum(key[..i] + key[i + 1..]) + key[i]
    decreases |key|
  {
    var n := |key| - 1;
    var rest := key[..i] + key[i + 1..];
    if i == n {
      assert rest == key[..n];
    } else {
      assert key[..n][..i] + key[..n][i + 1..] == rest[..|rest| - 1];
      SumRemove(key[..n], i);
    }
  }

  lemma {:induction false} SumOfPermutation(a: seq<Byte>, b: seq<Byte>)
    requires multiset(a) == multiset(b)
    ensures Sum(a) == Sum(b)
    decreases |a|
  {
    if a == [] {
      assert |multiset(b)| == 0;
    } else {
      var n := |a| - 1;
      var x := a[n];
      assert x in multiset(b);
      var i :| 0 <= i < |b| && b[i] == x;
      var rest := b[..i] + b[i + 1..];
      SumRemove(b, i);
      TakeOut(b, i);
      TakeOut(a, n);
      assert a[..n] + a[n + 1..] == a[..n];
      CancelOne(multiset(a[..n]), multiset(rest), x);
      SumOfPermutation(a[..n], rest);
    }
  }

  lemma TakeOut(s: seq<Byte>, i: nat)
    requires i < |s|
    ensures multiset(s) == multiset(s[..i] + s[i + 1..]) + multiset{s[i]}
  {
    assert s == s[..i] + [s[i]] + s[i + 1..];
  }

  lemma CancelOne(a: multiset<Byte>, b: multiset<Byte>, x: Byte)
    requires a + multiset{x} == b + multiset{x}
    ensures a == b
  {
    assert a == (a + multiset{x}) - multiset{x};
    assert b == (b + multiset{x}) - multiset{x};
  }

  /** The folded hash stays in a byte and does not depend on the order of the key's bytes. */
  lemma FoldedHash(a: seq<Byte>, b: seq<Byte>)
    requires multiset(a) == multiset(b)
    ensures Reduce(Sum(a)) == Reduce(Sum(b)) <= 255
  {
    hide Sum, Reduce;
    SumOfPermutation(a, b);
  }

  /** The folded hash is the sum of the bytes in eight bits, the carry added back in each time. */
  lemma FoldedSum(key: seq<Byte>, x: Byte)
    ensures Reduce(Sum([])) == 0
    ensures var h := Reduce(Sum(key)) + x;
            Reduce(Sum(key + [x])) == if h > 255 then h - 255 else h
  {
    var all, s := key + [x], Sum(key);
    assert all[..|all| - 1] == key;
    ReduceAdd(s, x);
    var h := Reduce(s) + x;
    if h > 255 {
      SameReduce(h - 255, h, 1);
      ReduceSmall(h - 255);
    } else {
      ReduceSmall(h);
    }
  }

  // ---------------------------------------------------------------- the size of the table

  const MIN_BUCKETS: nat := 16
  const MAX_BUCKETS: nat := 0x400_0000_0000_0000
  const INT_SIGN: nat := 0x8000_0000

  predicate IsPow2(n: nat): (r: bool)
    ensures r ==> n > 0
  {
    n == 1 || (n > 1 && n % 2 == 0 && IsPow2(n / 2))
  }

  lemma {:induction false} Pow2IsPow2(k: nat)
    ensures IsPow2(Pow2(k))
  {
    if k > 0 { Pow2IsPow2(k - 1); }
  }

  lemma {:induction false} AndSelf(a: nat)
    ensures And(a, a) == a
  {
    if a > 0 { AndSelf(a / 2); }
  }

  /** A number has no bit in common with the one before it just when it is a power of two. */
  lemma {:induction false} PowerTest(n: nat)
    requires n > 0
    ensures And(n, n - 1) == 0 <==> IsPow2(n)
  {
    if n > 1 {
      hide And;
      AndHalves(n, n - 1);
      if n % 2 == 0 {
        assert (n - 1) / 2 == n / 2 - 1;
        PowerTest(n / 2);
      } else {
        assert (n - 1) / 2 == n / 2;
        AndSelf(n / 2);
      }
    } else {
      assert And(1, 0) == 0;
    }
  }

  /** How often n can be halved before it is 0. */
  function Halvings(n: nat): nat {
    if n == 0 then 0 else 1 + Halvings(n / 2)
  }

  lemma {:induction false} HalvingsBound(n: nat)
    requires n > 0
    ensures Halvings(n) > 0 && Pow2(Halvings(n) - 1) <= n < Pow2(Halvings(n))
  {
    if n > 1 { HalvingsBound(n / 2); }
  }

  /** `1 << p`, an int shift whose result is widened to size_t. For p >= 31 C leaves it undefined;
      this is what x86-64 does. */
  function IntShift(p: nat): nat {
    var w := Bit32(p);
    if w < INT_SIGN then w else w + 0xffff_ffff_0000_0000
  }

  function Clamp(nel: nat): nat {
    var n := if nel < MIN_BUCKETS then MIN_BUCKETS else nel;
    if n > MAX_BUCKETS then MAX_BUCKETS else n
  }

  function SizeFor(nel: nat): nat {
    if IsPow2(Clamp(nel)) then Clamp(nel) else IntShift(Halvings(Clamp(nel)))
  }

  /** The size new_hash_table computes. */
  method TableSize(nel0: nat) returns (nel: nat)
    ensures nel == SizeFor(nel0)
  {
    hide And, Shr, IsPow2, IntShift;
    nel := nel0;
    if nel < MIN_BUCKETS { nel := MIN_BUCKETS; }
    if nel > MAX_BUCKETS { nel := MAX_BUCKETS; }
    PowerTest(nel);
    if And(nel, nel - 1) != 0 {
      ghost var n := nel;
      var p2 := 0;
      while nel != 0
        invariant p2 + Halvings(nel) == Halvings(n)
      {
        nel := nel / 2;
        p2 := p2 + 1;
      }
      nel := IntShift(p2);
    }
  }

  ghost predicate LeastPow2From(size: nat, n: nat) {
    IsPow2(size) && n <= size && forall m: nat | n <= m < size :: !IsPow2(m)
  }

  lemma {:induction false} NoPow2Between(k: nat, m: nat)
    requires Pow2(k) < m < Pow2(k + 1)
    ensures !IsPow2(m)
    decreases k
  {
    if k > 0 && m % 2 == 0 { NoPow2Between(k - 1, m / 2); }
  }

  lemma LargePowers()
    ensures Pow2(30) == 0x4000_0000 && Pow2(58) == MAX_BUCKETS
    ensures Pow2(63) == 0x8000_0000_0000_0000 && Pow2(64) == 0x1_0000_0000_0000_0000
  {
    Pow2Of32();
    assert Pow2(34) == 0x4_0000_0000;
    assert Pow2(38) == 0x40_0000_0000;
    assert Pow2(42) == 0x400_0000_0000;
    assert Pow2(46) == 0x4000_0000_0000;
    assert Pow2(50) == 0x4_0000_0000_0000;
    assert Pow2(54) == 0x40_0000_0000_0000;
    assert Pow2(58) == MAX_BUCKETS;
    assert Pow2(62) == 0x4000_0000_0000_0000;
  }

  lemma RoundsUp(n: nat)
    requires 0 < n < 0x4000_0000 && !IsPow2(n)
    ensures LeastPow2From(IntShift(Halvings(n)), n)
  {
    hide IsPow2, Pow2, Bit32, LeastPow2From;
    var p := Halvings(n);
    HalvingsBound(n);
    LargePowers();
    if p > 30 { Pow2Monotone(30, p - 1); }
    ShiftIs(p);
    Pow2Monotone(p, 30);
    NextPow2(p, n);
  }

  lemma NextPow2(p: nat, n: nat)
    requires p > 0 && Pow2(p - 1) <= n < Pow2(p) && !IsPow2(n)
    ensures LeastPow2From(Pow2(p), n)
  {
    hide IsPow2, Pow2;
    Pow2IsPow2(p);
    Pow2IsPow2(p - 1);
    forall m: nat | n <= m < Pow2(p) ensures !IsPow2(m) { NoPow2Between(p - 1, m); }
  }

  lemma ShiftIs(p: nat)
    ensures Bit32(p) == Pow2(p % 32)
  {
  }

  lemma ShiftsTooFar(n: nat)
    requires 0x4000_0000 < n <= MAX_BUCKETS && !IsPow2(n)
    ensures !LeastPow2From(IntShift(Halvings(n)), n)
  {
    hide IsPow2, Pow2, Bit32;
    var p := Halvings(n);
    HalvingsBound(n);
    LargePowers();
    Pow2Of32();
    if p <= 30 { Pow2Monotone(p, 30); }
    if p > 59 { Pow2Monotone(59, p - 1); }
    if p > 58 { Pow2Monotone(58, p - 1); Pow2IsPow2(58); }
    ShiftIs(p);
    if p == 31 {
      NoPow2Between(63, IntShift(p));
    } else {
      Pow2Monotone(p - 32, 30);
    }
  }

  /** The size is the least power of two from max(nel, 16) on exactly for nel up to 2^30 and for
      powers of two up to MAX_BUCKETS: beyond, the int shift overflows, or the cap applies. */
  lemma SizeIsLeast(nel: nat)
    ensures LeastPow2From(SizeFor(nel), if nel < MIN_BUCKETS then MIN_BUCKETS else nel)
            <==> nel <= 0x4000_0000 || (nel <= MAX_BUCKETS && IsPow2(nel))
  {
    hide IsPow2, IntShift, Halvings;
    var n := if nel < MIN_BUCKETS then MIN_BUCKETS else nel;
    LargePowers();
    Pow2IsPow2(30);
    Pow2IsPow2(58);
    assert IsPow2(16) by { SixteenIsPow2(); }
    if n > MAX_BUCKETS {
    } else if IsPow2(n) {
    } else if n <= 0x4000_0000 {
      RoundsUp(n);
    } else {
      ShiftsTooFar(n);
    }
  }

  lemma SixteenIsPow2()
    ensures IsPow2(16)
  {
    assert IsPow2(4);
  }

  /** Reading a hash with `& (size - 1)` is then reading it modulo the size. */
  lemma {:induction false} MaskOfPow2(h: nat, size: nat)
    requires IsPow2(size)
    ensures And(h, size - 1) == h % size
    decreases size
  {
    if size > 1 {
      hide And;
      AndHalves(h, size - 1);
      assert (size - 1) / 2 == size / 2 - 1;
      MaskOfPow2(h / 2, size / 2);
      HalfRemainder(h, size / 2);
    } else {
      assert And(h, 0) == 0;
    }
  }

  lemma HalfRemainder(h: nat, p: nat)
    requires p > 0
    ensures h % (2 * p) == 2 * ((h / 2) % p) + h % 2
  {
    var q, r := (h / 2) / p, (h / 2) % p;
    assert q * (2 * p) == 2 * (q * p);
    QuotientUnique(2 * p, q, 2 * r + h % 2, h / (2 * p), h % (2 * p));
  }

  // ---------------------------------------------------------------- the size as an int

  lemma {:induction false} LargePow2(size: nat, k: nat) returns (q: nat)
    requires IsPow2(size) && size >= Pow2(k)
    ensures size == q * Pow2(k)
    decreases k
  {
    if k == 0 {
      q := size;
    } else {
      q := LargePow2(size / 2, k - 1);
      var p := Pow2(k - 1);
      assert q * (2 * p) == 2 * (q * p);
    }
  }

  lemma NarrowsToZero(size: nat)
    requires IsPow2(size) && size >= TWO32
    ensures ToInt(size) == 0
  {
    hide IsPow2;
    Pow2Of32();
    var q := LargePow2(size, 32);
  }

  /** For a power of two, hash is defined if and only if the size is below 2^32: at 2^31 the int
      is negative, but the remainder is the same; from 2^32 on the int is 0. Where it is defined,
      masking the hash gives the remainder modulo the size. */
  lemma HashDefinedIff(h: nat, size: nat)
    requires IsPow2(size)
    ensures ToInt(size) != 0 <==> size < TWO32
    ensures size < TWO32 ==> And(Rem(h, ToInt(size)), size - 1) == h % size
  {
    hide IsPow2, And;
    if size >= TWO32 {
      NarrowsToZero(size);
    } else {
      Pow2Of32();
      if size > INT_SIGN { NoPow2Between(31, size); }
      MaskOfPow2(h % size, size);
      Twice(h, size);
    }
  }

  lemma Twice(h: nat, size: nat)
    requires size > 0
    ensures h % size < size && h % size <= h && (h % size) % size == h % size
  {
    var q, r := h / size, h % size;
    if q == 0 { assert q * size == 0; } else { MulAtLeast(q, size); }
    QuotientUnique(size, 0, r, r / size, r % size);
  }

  /** The tables that new_hash_table can make but hash cannot be called on: those for powers of
      two from 2^32 on, and for everything from MAX_BUCKETS on. */
  lemma SizesThatHash(nel: nat)
    ensures IsPow2(SizeFor(nel)) ==>
              (ToInt(SizeFor(nel)) != 0 <==> Clamp(nel) < TWO32 || !IsPow2(Clamp(nel)))
  {
    hide IsPow2, Halvings, Clamp, ToInt, Bit32, Pow2;
    var n, size := Clamp(nel), SizeFor(nel);
    if IsPow2(size) {
      HashDefinedIff(0, size);
      if !IsPow2(n) { SmallShift(Halvings(n)); }
    }
  }

  lemma SmallShift(p: nat)
    requires IsPow2(IntShift(p))
    ensures IntShift(p) < TWO32
  {
    hide IsPow2, Pow2, Bit32;
    ShiftIs(p);
    Pow2Below32(p % 32);
    LargePowers();
    if IntShift(p) >= TWO32 { NoPow2Between(63, IntShift(p)); }
  }

  /** So a table for 2^32 entries is made, and the first hash in it divides by zero. */
  lemma TooLargeToHash()
    ensures IsPow2(SizeFor(TWO32)) && ToInt(SizeFor(TWO32)) == 0
  {
    hide IsPow2;
    Pow2Of32();
    Pow2IsPow2(32);
  }
}
