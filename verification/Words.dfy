/** The C operators on unsigned words, as arithmetic on natural numbers. */
module Words {

  const TWO32: int := 0x1_0000_0000

  type Word = x: int | 0 <= x < 0x1_0000_0000
  type Byte = x: int | 0 <= x < 0x100

  /** Truncation to 32 bits. */
  function Wrap(x: int): (r: Word)
    ensures 0 <= x < TWO32 ==> r == x
  {
    x % TWO32
  }

  /** A word read as a signed number. */
  function Signed(w: Word): int {
    if w < 0x8000_0000 then w else w - TWO32
  }

  /** The number at an offset in network byte order, of 16 and of 32 bits. */
  function Net16(p: seq<Byte>, at: nat): (w: Word)
    requires at + 2 <= |p|
    ensures w < 0x1_0000
  {
    0x100 * (p[at] as int) + p[at + 1] as int
  }

  function Net32(p: seq<Byte>, at: nat): Word
    requires at + 4 <= |p|
  {
    0x100_0000 * (p[at] as int) + 0x1_0000 * (p[at + 1] as int) + 0x100 * (p[at + 2] as int) + p[at + 3] as int
  }

  function Pow2(n: nat): (p: nat)
    ensures p > 0
  {
    if n == 0 then 1 else 2 * Pow2(n - 1)
  }

  /** `a & b` */
  function And(a: nat, b: nat): (r: nat)
    ensures r <= a && r <= b
    decreases a
  {
    if a == 0 || b == 0 then 0
    else 2 * And(a / 2, b / 2) + (if a % 2 == 1 && b % 2 == 1 then 1 else 0)
  }

  /** `a | b` */
  function Or(a: nat, b: nat): (r: nat)
    ensures r >= a && r >= b && r <= a + b
    decreases a
  {
    if a == 0 then b
    else 2 * Or(a / 2, b / 2) + (if a % 2 == 1 || b % 2 == 1 then 1 else 0)
  }

  /** `~a` on a 32-bit word */
  function Not32(a: Word): Word
  {
    TWO32 - 1 - a
  }

  /** `1 << k` on a 32-bit word; the shift count is taken modulo 32, as x86 does. */
  function Bit32(k: int): (r: Word)
  {
    Pow2Below32(k % 32);
    Pow2(k % 32)
  }

  lemma Pow2Monotone(m: nat, n: nat)
    requires m <= n
    ensures Pow2(m) <= Pow2(n)
  {
    if m < n { Pow2Monotone(m, n - 1); }
  }

  lemma Pow2Of32()
    ensures Pow2(16) == 0x1_0000 && Pow2(31) == 0x8000_0000 && Pow2(32) == TWO32
  {
    assert Pow2(8) == 0x100;
    assert Pow2(12) == 0x1000;
    assert Pow2(16) == 0x1_0000;
    assert Pow2(20) == 0x10_0000;
    assert Pow2(24) == 0x100_0000;
    assert Pow2(28) == 0x1000_0000;
  }

  lemma Pow2Below32(k: nat)
    requires k < 32
    ensures Pow2(k) <= 0x8000_0000
  {
    Pow2Of32();
    Pow2Monotone(k, 31);
  }

  /** The low k bits of a, as a number: the remainder modulo 2^k (LowIsRemainder). */
  function Low(a: nat, k: nat): (r: nat)
    ensures r < Pow2(k) && r <= a
    decreases k
  {
    if k == 0 then 0 else 2 * Low(a / 2, k - 1) + a % 2
  }

  /** `a & ((1 << k) - 1)` keeps the low k bits. */
  lemma {:induction false} AndLowMask(a: nat, k: nat)
    ensures And(a, Pow2(k) - 1) == Low(a, k)
  {
    if k > 0 {
      assert (2 * Pow2(k - 1) - 1) / 2 == Pow2(k - 1) - 1;
      AndLowMask(a / 2, k - 1);
      LowOfZero(k);
    }
  }

  lemma {:induction false} LowOfZero(k: nat)
    ensures Low(0, k) == 0
  {
    if k > 0 { LowOfZero(k - 1); }
  }

  /** `a | ((1 << k) - 1)` sets the low k bits. */
  lemma {:induction false} OrLowMask(a: nat, k: nat)
    ensures Or(a, Pow2(k) - 1) == a - Low(a, k) + Pow2(k) - 1
  {
    if k > 0 {
      assert (2 * Pow2(k - 1) - 1) / 2 == Pow2(k - 1) - 1;
      OrLowMask(a / 2, k - 1);
      LowOfZero(k);
    } else {
      OrZero(a);
    }
  }

  lemma {:induction false} OrZero(a: nat)
    ensures Or(a, 0) == a
  {
    if a > 0 { OrZero(a / 2); }
  }

  /** A number below 2^k is its own low k bits. */
  lemma {:induction false} LowOfSmall(a: nat, k: nat)
    requires a < Pow2(k)
    ensures Low(a, k) == a
  {
    if k > 0 { LowOfSmall(a / 2, k - 1); }
  }

  /** `a & (2^n - 2^k)`, the complement mask in n bits, clears the low k bits. */
  lemma {:induction false} AndHighMask(a: nat, k: nat, n: nat)
    requires k <= n && a < Pow2(n) && Pow2(k) <= Pow2(n)
    ensures And(a, Pow2(n) - Pow2(k)) == a - Low(a, k)
  {
    if k == 0 {
      AndLowMask(a, n);
      LowOfSmall(a, n);
    } else {
      Pow2Monotone(k - 1, n - 1);
      assert (2 * Pow2(n - 1) - 2 * Pow2(k - 1)) / 2 == Pow2(n - 1) - Pow2(k - 1);
      AndHighMask(a / 2, k - 1, n - 1);
      LowOfZero(k);
    }
  }

  /** Setting a bit that is clear adds its weight. */
  lemma {:induction false} OrSetsBit(a: nat, k: nat)
    requires Low(a, k + 1) == Low(a, k)
    ensures Or(a, Pow2(k)) == a + Pow2(k)
  {
    hide Or;
    OrHalves(a, Pow2(k));
    if k > 0 {
      assert Low(a / 2, k) == Low(a / 2, k - 1);
      OrSetsBit(a / 2, k - 1);
    } else {
      OrZero(a / 2);
    }
  }

  lemma MulAtLeast(m: int, d: int)
    requires m >= 1 && d > 0
    ensures m * d >= d
  {
    assert (m - 1) * d >= 0;
  }

  lemma QuotientUnique(d: int, q: int, r: int, q': int, r': int)
    requires 0 <= r < d && 0 <= r' < d && q * d + r == q' * d + r'
    ensures q == q' && r == r'
  {
    assert (q - q') * d == q * d - q' * d;
    if q > q' {
      MulAtLeast(q - q', d);
    } else if q < q' {
      assert (q' - q) * d == q' * d - q * d;
      MulAtLeast(q' - q, d);
    }
  }

  /** Low(a, k) is the remainder of a modulo 2^k. */
  lemma {:induction false} LowIsRemainder(a: nat, k: nat)
    ensures Low(a, k) == a % Pow2(k)
  {
    var d := Pow2(k);
    var q := HighPart(a, k);
    QuotientUnique(d, q, Low(a, k), a / d, a % d);
  }

  lemma {:induction false} HighPart(a: nat, k: nat) returns (q: nat)
    ensures a == q * Pow2(k) + Low(a, k)
  {
    if k == 0 {
      q := a;
    } else {
      q := HighPart(a / 2, k - 1);
      var p := Pow2(k - 1);
      assert q * (2 * p) == 2 * (q * p);
    }
  }

  // ---------------------------------------------------------------- single bits

  /** Bit i of a, counted from the least significant. */
  predicate BitAt(a: nat, i: nat)
    decreases i
  {
    if i == 0 then a % 2 == 1 else BitAt(a / 2, i - 1)
  }

  lemma {:induction false} ZeroBits(i: nat)
    ensures !BitAt(0, i)
  {
    if i > 0 { ZeroBits(i - 1); }
  }

  lemma OrHalves(a: nat, b: nat)
    ensures Or(a, b) / 2 == Or(a / 2, b / 2)
    ensures Or(a, b) % 2 == 1 <==> a % 2 == 1 || b % 2 == 1
  {
    if a > 0 {
      var r := Or(a / 2, b / 2);
    }
  }

  lemma AndHalves(a: nat, b: nat)
    ensures And(a, b) / 2 == And(a / 2, b / 2)
    ensures And(a, b) % 2 == 1 <==> a % 2 == 1 && b % 2 == 1
  {
    if a > 0 && b > 0 {
      var r := And(a / 2, b / 2);
    }
  }

  lemma {:induction false} OrBits(a: nat, b: nat, i: nat)
    ensures BitAt(Or(a, b), i) <==> BitAt(a, i) || BitAt(b, i)
    decreases i
  {
    hide Or;
    OrHalves(a, b);
    if i > 0 { OrBits(a / 2, b / 2, i - 1); }
  }

  lemma {:induction false} AndBits(a: nat, b: nat, i: nat)
    ensures BitAt(And(a, b), i) <==> BitAt(a, i) && BitAt(b, i)
    decreases i
  {
    hide And;
    AndHalves(a, b);
    if i > 0 { AndBits(a / 2, b / 2, i - 1); }
  }

  /** Complementing n bits complements each of them. */
  lemma {:induction false} NotBits(a: nat, n: nat, i: nat)
    requires a < Pow2(n) && i < n
    ensures BitAt(Pow2(n) - 1 - a, i) <==> !BitAt(a, i)
  {
    if i > 0 {
      assert (Pow2(n) - 1 - a) / 2 == Pow2(n - 1) - 1 - a / 2;
      NotBits(a / 2, n - 1, i - 1);
    }
  }

  lemma {:induction false} ShiftBits(a: nat, k: nat, i: nat)
    ensures BitAt(a * Pow2(k), i) <==> i >= k && BitAt(a, i - k)
    decreases k
  {
    if k > 0 {
      assert a * Pow2(k) == 2 * (a * Pow2(k - 1));
      if i > 0 { ShiftBits(a, k - 1, i - 1); }
    } else {
      assert a * Pow2(0) == a;
    }
  }

  /** The bits of a high part and an n-bit low part put together. */
  lemma {:induction false} JoinBits(a: nat, b: nat, n: nat, i: nat)
    requires b < Pow2(n)
    ensures BitAt(a * Pow2(n) + b, i) <==> if i < n then BitAt(b, i) else BitAt(a, i - n)
    decreases n
  {
    if n > 0 {
      var p := Pow2(n - 1);
      assert a * (2 * p) == 2 * (a * p);
      assert (a * Pow2(n) + b) / 2 == a * p + b / 2 && (a * Pow2(n) + b) % 2 == b % 2;
      if i > 0 { JoinBits(a, b / 2, n - 1, i - 1); }
    } else {
      assert a * Pow2(0) == a;
    }
  }

  /** `(1 << n) - 1` has exactly the low n bits. */
  lemma {:induction false} OnesBits(n: nat, i: nat)
    ensures BitAt(Pow2(n) - 1, i) <==> i < n
    decreases n
  {
    if n == 0 {
      ZeroBits(i);
    } else {
      assert (Pow2(n) - 1) / 2 == Pow2(n - 1) - 1;
      if i > 0 { OnesBits(n - 1, i - 1); }
    }
  }

  /** A number of n bits that has them all set is 2^n - 1. */
  lemma {:induction false} AllOnes(a: nat, n: nat)
    requires a < Pow2(n) && forall i: nat | i < n :: BitAt(a, i)
    ensures a == Pow2(n) - 1
  {
    if n > 0 {
      assert BitAt(a, 0);
      forall i: nat | i < n - 1 ensures BitAt(a / 2, i) { assert BitAt(a, i + 1); }
      AllOnes(a / 2, n - 1);
    }
  }

  /** `bsf`: the index of the least significant set bit. */
  function Bsf(a: nat): (i: nat)
    requires a > 0
    ensures BitAt(a, i) && forall j: nat | j < i :: !BitAt(a, j)
  {
    if a % 2 == 1 then 0 else 1 + Bsf(a / 2)
  }

  // ---------------------------------------------------------------- shifts

  /** `a >> k` */
  function Shr(a: nat, k: nat): nat
    decreases k
  {
    if k == 0 then a else Shr(a / 2, k - 1)
  }

  /** `a << k`, without truncation */
  function Double(a: nat, k: nat): nat {
    if k == 0 then a else 2 * Double(a, k - 1)
  }

  lemma {:induction false} DoubleIsProduct(a: nat, k: nat)
    ensures Double(a, k) == a * Pow2(k)
  {
    if k > 0 {
      DoubleIsProduct(a, k - 1);
      var p := Pow2(k - 1);
      assert a * (2 * p) == 2 * (a * p);
    }
  }

  lemma {:induction false} ShrIsQuotient(a: nat, k: nat)
    ensures Shr(a, k) == a / Pow2(k)
    decreases k
  {
    if k > 0 {
      ShrIsQuotient(a / 2, k - 1);
      HalfQuotient(a, Pow2(k - 1));
    }
  }

  lemma HalfQuotient(a: nat, p: nat)
    requires p > 0
    ensures a / (2 * p) == (a / 2) / p
  {
    var q, r := (a / 2) / p, (a / 2) % p;
    assert q * (2 * p) == 2 * (q * p);
    QuotientUnique(2 * p, q, 2 * r + a % 2, a / (2 * p), a % (2 * p));
  }

  /** Masking with a mask shifted left masks the number shifted right. */
  lemma {:induction false} AndDouble(a: nat, m: nat, k: nat)
    ensures And(a, Double(m, k)) == Double(And(Shr(a, k), m), k)
    decreases k
  {
    if k > 0 {
      hide And;
      AndHalves(a, Double(m, k));
      AndDouble(a / 2, m, k - 1);
    }
  }
}
