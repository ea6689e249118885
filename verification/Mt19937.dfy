/** mt19937ar.c: the Mersenne Twister, rewritten in place one block at a time. */
module Mt19937 {

  const N := 624
  const M := 397
  const MATRIX_A: bv32 := 0x9908b0df
  const UPPER_MASK: bv32 := 0x80000000
  const LOWER_MASK: bv32 := 0x7fffffff

  // ---------------------------------------------------------------- the recurrence

  function Upper(x: bv32): bv32 { x & UPPER_MASK }

  function Lower(x: bv32): bv32 { x & LOWER_MASK }

  function Merge(u: bv32, l: bv32): bv32 { u | l }

  function Xor(a: bv32, b: bv32): bv32 { a ^ b }

  /** The top bit of one word joined to the low 31 bits of the next. */
  function Join(u: bv32, l: bv32): bv32 { Merge(Upper(u), Lower(l)) }

  /** Half of y, with the matrix mixed in when y is odd. */
  function Twist(y: bv32): bv32 {
    (y >> 1) ^ (if y & 1 == 0 then 0 else MATRIX_A)
  }

  /** The pure recurrence: the n-th word of the infinite sequence begun by a state array. */
  function Word(init: seq<bv32>, n: nat): bv32
    requires |init| == N
  {
    if n < N then init[n]
    else Xor(Word(init, n - N + M), Twist(Join(Word(init, n - N), Word(init, n - N + 1))))
  }

  // the four steps of tempering, and what undoes each
  function Shr(y: bv32, k: bv6): bv32
    requires k < 32
  {
    y >> k
  }

  function Mix11(y: bv32): bv32 { Xor(y, Shr(y, 11)) }
  function Mix7(y: bv32): bv32 { y ^ ((y << 7) & 0x9d2c5680) }
  function Mix15(y: bv32): bv32 { y ^ ((y << 15) & 0xefc60000) }
  function Mix18(y: bv32): bv32 { Xor(y, Shr(y, 18)) }

  function Unmix11(z: bv32): bv32 { Xor(z, Xor(Shr(z, 11), Shr(z, 22))) }
  function Unmix7(z: bv32): bv32 { Redo7(z, Redo7(z, Redo7(z, Redo7(z, z)))) }
  function Redo7(z: bv32, y: bv32): bv32 { z ^ ((y << 7) & 0x9d2c5680) }

  function Unmix15(z: bv32): bv32 { z ^ ((z << 15) & 0xefc60000) }
  function Unmix18(z: bv32): bv32 { Xor(z, Shr(z, 18)) }

  function Temper(y: bv32): bv32 { Mix18(Mix15(Mix7(Mix11(y)))) }

  function Untemper(z: bv32): bv32 { Unmix11(Unmix7(Unmix15(Unmix18(z)))) }

  lemma Undo11(y: bv32)
    ensures Unmix11(Mix11(y)) == y
  {
    var a, b := Shr(y, 11), Shr(y, 22);
    ShrXor11(y, a);
    ShrXor22(y, a);
    ShrTwice11(y);
    ShrPast(y);
    XorZero(b);
    XorPairs(y, a, b);
    hide Xor, Shr;
  }

  lemma Redo11(z: bv32)
    ensures Mix11(Unmix11(z)) == z
  {
    var a, b := Shr(z, 11), Shr(z, 22);
    ShrXor11(z, Xor(a, b));
    ShrXor11(a, b);
    ShrTwice11(z);
    ShrPast(z);
    XorZero(b);
    XorPairs(z, a, b);
    hide Xor, Shr;
  }

  lemma ShrXor11(a: bv32, b: bv32)
    ensures Shr(Xor(a, b), 11) == Xor(Shr(a, 11), Shr(b, 11))
  {
  }

  lemma ShrXor22(a: bv32, b: bv32)
    ensures Shr(Xor(a, b), 22) == Xor(Shr(a, 22), Shr(b, 22))
  {
  }

  lemma ShrTwice11(y: bv32)
    ensures Shr(Shr(y, 11), 11) == Shr(y, 22)
  {
  }

  lemma ShrPast(y: bv32)
    ensures Shr(Shr(y, 11), 22) == 0 && Shr(Shr(y, 22), 11) == 0
  {
  }

  lemma XorZero(a: bv32)
    ensures Xor(a, 0) == a
  {
  }

  lemma XorPairs(y: bv32, a: bv32, b: bv32)
    ensures Xor(Xor(y, a), Xor(Xor(a, b), b)) == y && Xor(Xor(y, Xor(a, b)), Xor(a, b)) == y
  {
  }

  lemma Undo7(y: bv32)
    ensures Unmix7(Mix7(y)) == y
  {
  }

  lemma Redo7Fixed(z: bv32)
    ensures Mix7(Unmix7(z)) == z
  {
  }

  lemma Undo15(y: bv32)
    ensures Unmix15(Mix15(y)) == y && Mix15(Unmix15(y)) == y
  {
  }

  lemma Undo18(y: bv32)
    ensures Unmix18(Mix18(y)) == y && Mix18(Unmix18(y)) == y
  {
    ShrOnce18(y);
    XorPairs(y, Shr(y, 18), 0);
    XorZero(Shr(y, 18));
    hide Xor, Shr;
  }

  lemma ShrOnce18(y: bv32)
    ensures Shr(Xor(y, Shr(y, 18)), 18) == Shr(y, 18)
  {
  }

  /** Tempering is a bijection on 32-bit words. */
  lemma TemperBijective(x: bv32)
    ensures Untemper(Temper(x)) == x && Temper(Untemper(x)) == x
  {
    hide Mix11, Mix7, Mix15, Mix18, Unmix11, Unmix7, Unmix15, Unmix18;
    Undo18(Mix15(Mix7(Mix11(x))));
    Undo15(Mix7(Mix11(x)));
    Undo7(Mix11(x));
    Undo11(x);
    Redo11(Unmix7(Unmix15(Unmix18(x))));
    Redo7Fixed(Unmix15(Unmix18(x)));
    Undo15(Unmix18(x));
    Undo18(x);
  }

  // ---------------------------------------------------------------- the 19937-bit state

  /** The part of the state the recurrence looks at: the top bit of one word and the whole of
      the next 623 words. */
  datatype Window = Window(top: bv32, rest: seq<bv32>)

  ghost predicate IsWindow(w: Window) {
    Lower(w.top) == 0 && |w.rest| == N - 1
  }

  ghost predicate IsZero(w: Window) {
    w.top == 0 && forall i | 0 <= i < |w.rest| :: w.rest[i] == 0
  }

  function Next(w: Window): Window
    requires |w.rest| == N - 1
  {
    Window(Upper(w.rest[0]), w.rest[1..] + [Xor(w.rest[M - 1], Twist(Join(w.top, w.rest[0])))])
  }

  function Untwist(v: bv32): bv32 {
    if v & 0x80000000 == 0 then v << 1 else ((v ^ 0x9908b0df) << 1) | 1
  }

  function Previous(w: Window): Window
    requires |w.rest| == N - 1
  {
    var y := Untwist(Xor(w.rest[622], w.rest[395]));
    Window(y & 0x80000000, [w.top | (y & 0x7fffffff)] + w.rest[..622])
  }

  lemma UntwistTwist(y: bv32)
    ensures Untwist(Twist(y)) == y
  {
    if y & 1 == 0 {
      assert (y >> 1) & UPPER_MASK == 0;
    } else {
      assert ((y >> 1) ^ MATRIX_A) & UPPER_MASK != 0;
    }
  }

  lemma TwistUntwist(v: bv32)
    ensures Twist(Untwist(v)) == v
  {
    hide Twist;
    if v & UPPER_MASK == 0 {
      TwistOfEven(v);
    } else {
      TwistOfOdd(v);
    }
  }

  lemma TwistOfEven(v: bv32)
    requires v & UPPER_MASK == 0
    ensures Twist(v << 1) == v
  {
    ShiftedIsEven(v);
    ShiftedBack(v);
  }

  lemma ShiftedIsEven(v: bv32)
    ensures (v << 1) & 1 == 0
  {
  }

  lemma ShiftedBack(v: bv32)
    requires v & UPPER_MASK == 0
    ensures (v << 1) >> 1 == v
  {
  }

  lemma TwistOfOdd(v: bv32)
    requires v & UPPER_MASK != 0
    ensures Twist(((v ^ MATRIX_A) << 1) | 1) == v
  {
  }

  lemma JoinUpper(u: bv32, l: bv32)
    requires Lower(u) == 0
    ensures Upper(Join(u, l)) == u
  {
  }

  lemma JoinLower(u: bv32, l: bv32)
    ensures Lower(Join(u, l)) == Lower(l)
  {
  }

  lemma MergeParts(x: bv32)
    ensures Merge(Upper(x), Lower(x)) == x
  {
  }

  lemma LowerOfUpper(x: bv32)
    ensures Lower(Upper(x)) == 0
  {
  }

  lemma UpperOfMerge(t: bv32, y: bv32)
    requires Lower(t) == 0
    ensures Upper(Merge(t, Lower(y))) == t
  {
  }

  lemma JoinOfParts(t: bv32, y: bv32)
    requires Lower(t) == 0
    ensures Join(Upper(y), Merge(t, Lower(y))) == y
  {
  }

  lemma XorCancels(a: bv32, b: bv32)
    ensures Xor(Xor(a, b), a) == b
  {
  }

  lemma XorRestores(a: bv32, b: bv32)
    ensures Xor(a, Xor(b, a)) == b
  {
  }

  lemma PreviousIs(w: Window)
    requires IsWindow(w)
    ensures var y := Untwist(Xor(w.rest[N - 2], w.rest[M - 2]));
            Previous(w) == Window(Upper(y), [Merge(w.top, Lower(y))] + w.rest[..N - 2])
  {
    hide Untwist, Xor;
  }

  /** The recurrence step is a bijection on the 19937-bit state. */
  lemma StepBijective(w: Window)
    requires IsWindow(w)
    ensures IsWindow(Next(w)) && Previous(Next(w)) == w
    ensures IsWindow(Previous(w)) && Next(Previous(w)) == w
  {
    NextThenPrevious(w);
    PreviousThenNext(w);
  }

  lemma NextThenPrevious(w: Window)
    requires IsWindow(w)
    ensures IsWindow(Next(w)) && Previous(Next(w)) == w
  {
    hide Join, Twist, Untwist, Upper, Lower, Merge, Xor, Previous;
    var y := Join(w.top, w.rest[0]);
    var n := Next(w);
    assert n.rest[N - 2] == Xor(w.rest[M - 1], Twist(y)) && n.rest[M - 2] == w.rest[M - 1];
    XorCancels(w.rest[M - 1], Twist(y));
    UntwistTwist(y);
    JoinUpper(w.top, w.rest[0]);
    JoinLower(w.top, w.rest[0]);
    MergeParts(w.rest[0]);
    LowerOfUpper(w.rest[0]);
    PreviousIs(n);
    assert n.rest[..N - 2] == w.rest[1..];
    assert [w.rest[0]] + w.rest[1..] == w.rest;
  }

  lemma PreviousThenNext(w: Window)
    requires IsWindow(w)
    ensures IsWindow(Previous(w)) && Next(Previous(w)) == w
  {
    hide Join, Twist, Untwist, Upper, Lower, Merge, Xor, Previous;
    var y := Untwist(Xor(w.rest[N - 2], w.rest[M - 2]));
    var p := Previous(w);
    PreviousIs(w);
    assert p.rest[M - 1] == w.rest[M - 2] && p.rest[0] == Merge(w.top, Lower(y));
    JoinOfParts(w.top, y);
    UpperOfMerge(w.top, y);
    LowerOfUpper(y);
    TwistUntwist(Xor(w.rest[N - 2], w.rest[M - 2]));
    XorRestores(w.rest[M - 2], w.rest[N - 2]);
    assert p.rest[1..] == w.rest[..N - 2];
    assert w.rest[..N - 2] + [w.rest[N - 2]] == w.rest;
  }

  /** The step fixes the zero state ... */
  lemma ZeroFixed(w: Window)
    requires IsWindow(w) && IsZero(w)
    ensures IsZero(Next(w)) && IsZero(Previous(w))
  {
    assert Upper(0) == 0 && Lower(0) == 0 && Merge(0, 0) == 0 && Xor(0, 0) == 0;
    assert Twist(0) == 0 && Untwist(0) == 0;
    hide Twist, Untwist, Upper, Lower, Merge, Xor;
    forall i | 0 <= i < N - 1 ensures Next(w).rest[i] == 0 && Previous(w).rest[i] == 0 {
      assert i < N - 2 ==> Next(w).rest[i] == w.rest[i + 1];
      assert i > 0 ==> Previous(w).rest[i] == w.rest[i - 1];
    }
  }

  /** ... so, being injective, it leads to zero from nowhere else. */
  lemma ZeroOnlyFromZero(w: Window)
    requires IsWindow(w)
    ensures IsZero(w) <==> IsZero(Next(w))
  {
    hide Next, Previous;
    StepBijective(w);
    if IsZero(w) { ZeroFixed(w); }
    if IsZero(Next(w)) { ZeroFixed(Next(w)); }
  }

  /** The window of the recurrence that starts at word n. */
  function WindowAt(init: seq<bv32>, n: nat): (w: Window)
    requires |init| == N
    ensures IsWindow(w)
  {
    LowerOfUpper(Word(init, n));
    Window(Upper(Word(init, n)), seq(N - 1, i requires 0 <= i => Word(init, n + 1 + i)))
  }

  lemma WindowStep(init: seq<bv32>, n: nat)
    requires |init| == N
    ensures WindowAt(init, n + 1) == Next(WindowAt(init, n))
  {
    var w, w' := WindowAt(init, n), WindowAt(init, n + 1);
    JoinOfUpper(Word(init, n), Word(init, n + 1));
    assert Word(init, n + N) == Xor(Word(init, n + M), Twist(Join(Word(init, n), Word(init, n + 1))));
    hide Join, Twist, Upper, Xor, Word;
    assert w'.rest[N - 2] == Next(w).rest[N - 2];
    assert forall i | 0 <= i < N - 2 :: w'.rest[i] == w.rest[i + 1];
  }

  lemma JoinOfUpper(u: bv32, l: bv32)
    ensures Join(Upper(u), l) == Join(u, l)
  {
  }

  lemma {:induction false} NeverZero(init: seq<bv32>, n: nat)
    requires |init| == N && !IsZero(WindowAt(init, 0))
    ensures !IsZero(WindowAt(init, n))
  {
    hide WindowAt;
    if n > 0 {
      NeverZero(init, n - 1);
      WindowStep(init, n - 1);
      ZeroOnlyFromZero(WindowAt(init, n - 1));
    }
  }

  /** A state that is not zero where the recurrence looks never yields a block of 624 zeros. */
  lemma SomeWordNonzero(init: seq<bv32>, n: nat) returns (k: nat)
    requires |init| == N && !IsZero(WindowAt(init, 0))
    ensures k < N && Word(init, n + k) != 0
  {
    NeverZero(init, n);
    var w := WindowAt(init, n);
    if w.top != 0 {
      k := 0;
    } else {
      var i :| 0 <= i < N - 1 && w.rest[i] != 0;
      k := i + 1;
    }
  }
}
